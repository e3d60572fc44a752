/** What `re.findall` returns, for a pattern described by a matcher: the matches are found from
    left to right, each search resuming where the previous match ended, so matches never
    overlap. */
module Scan {
  import opened Results

  /** `m(x)` is `Some(e)` when a match of the pattern starts at `x` and ends just before `e`. */
  type Matcher = nat -> Option<nat>

  /** No match starts in `[a, b)`. */
  ghost predicate NoMatchIn(m: Matcher, a: nat, b: nat) {
    forall x: nat :: a <= x < b ==> m(x).None?
  }

  /** A search from `a` finds its leftmost match at `x`. */
  ghost predicate LeftmostAt(m: Matcher, a: nat, x: nat) {
    a <= x && m(x).Some? && NoMatchIn(m, a, x)
  }

  /** Where the search goes on after looking at `x`: after the match there, or at the next
      position. */
  function NextFrom(m: Matcher, x: nat): nat {
    match m(x)
    case Some(e) => e
    case None => x + 1
  }

  /** Where the search for match `k` starts: at `from` for the first, after the previous match for
      the others. */
  function ResumeAt(m: Matcher, from: nat, xs: seq<nat>, k: nat): nat
    requires k <= |xs|
  {
    if k == 0 then from else NextFrom(m, xs[k - 1])
  }

  /** Every match is non-empty: it ends after it starts. */
  ghost predicate Advances(m: Matcher) {
    forall x: nat :: m(x).Some? ==> x < m(x).value
  }

  /** `vs` is what `findall` returns on a text of length `n` from `from` on, for matches starting at
      `xs`: each match is the leftmost one from where the search resumes, its entry is `v` of its
      start, and no match starts after the last one. */
  ghost predicate FindAll<T>(m: Matcher, v: nat -> T, from: nat, n: nat, xs: seq<nat>, vs: seq<T>) {
    && |xs| == |vs|
    && (forall k {:trigger vs[k]} :: 0 <= k < |xs| ==>
          LeftmostAt(m, ResumeAt(m, from, xs, k), xs[k]) && vs[k] == v(xs[k]))
    && NoMatchIn(m, ResumeAt(m, from, xs, |xs|), n)
  }

  /** Nothing is found once the search is past the end of the text. */
  lemma FindAllNone<T>(m: Matcher, v: nat -> T, from: nat, n: nat)
    requires n <= from
    ensures FindAll(m, v, from, n, [], [])
  {
  }

  /** A stretch where no match starts can be put in front of the search. */
  lemma FindAllSkipTo<T>(m: Matcher, v: nat -> T, from: nat, i: nat, n: nat, xs: seq<nat>, vs: seq<T>)
    requires from <= i && NoMatchIn(m, from, i) && FindAll(m, v, i, n, xs, vs)
    ensures FindAll(m, v, from, n, xs, vs)
  {
    forall k | 0 <= k < |xs|
      ensures LeftmostAt(m, ResumeAt(m, from, xs, k), xs[k])
    {
      assert vs[k] == v(xs[k]);
      if k == 0 {
        NoMatchJoin(m, from, i, xs[0]);
      } else {
        assert ResumeAt(m, from, xs, k) == ResumeAt(m, i, xs, k);
      }
    }
    if xs == [] {
      NoMatchJoin(m, from, i, n);
    } else {
      assert ResumeAt(m, from, xs, |xs|) == ResumeAt(m, i, xs, |xs|);
    }
  }

  /** Two adjacent stretches without matches make one. */
  lemma NoMatchJoin(m: Matcher, a: nat, b: nat, c: nat)
    requires a <= b && NoMatchIn(m, a, b) && NoMatchIn(m, b, c)
    ensures NoMatchIn(m, a, c)
  {
  }

  /** A match at `from` comes first, followed by the matches found after it. */
  lemma FindAllCons<T>(m: Matcher, v: nat -> T, from: nat, n: nat, xs: seq<nat>, vs: seq<T>)
    requires m(from).Some? && FindAll(m, v, NextFrom(m, from), n, xs, vs)
    ensures FindAll(m, v, from, n, [from] + xs, [v(from)] + vs)
  {
    var xs', vs' := [from] + xs, [v(from)] + vs;
    forall k | 0 <= k < |xs'|
      ensures LeftmostAt(m, ResumeAt(m, from, xs', k), xs'[k])
      ensures vs'[k] == v(xs'[k])
    {
      if k > 0 {
        FindAllConsAt(m, v, from, n, xs, vs, k);
      }
    }
    assert ResumeAt(m, from, xs', |xs'|) == ResumeAt(m, NextFrom(m, from), xs, |xs|);
  }

  /** Match `k` after a first one at `from` is match `k - 1` of those after it. */
  lemma FindAllConsAt<T>(m: Matcher, v: nat -> T, from: nat, n: nat, xs: seq<nat>, vs: seq<T>, k: nat)
    requires FindAll(m, v, NextFrom(m, from), n, xs, vs) && 0 < k <= |xs|
    ensures LeftmostAt(m, ResumeAt(m, from, [from] + xs, k), ([from] + xs)[k])
    ensures ([v(from)] + vs)[k] == v(([from] + xs)[k])
  {
    assert vs[k - 1] == v(xs[k - 1]);
    assert ([from] + xs)[k] == xs[k - 1];
    assert ([v(from)] + vs)[k] == vs[k - 1];
    assert ResumeAt(m, from, [from] + xs, k) == ResumeAt(m, NextFrom(m, from), xs, k - 1);
  }

  /** The first match found from `from` is the leftmost one there, and the others are what the
      search finds after it. */
  lemma FindAllUncons<T>(m: Matcher, v: nat -> T, from: nat, n: nat, xs: seq<nat>, vs: seq<T>)
    requires FindAll(m, v, from, n, xs, vs) && xs != []
    ensures LeftmostAt(m, from, xs[0])
    ensures FindAll(m, v, NextFrom(m, xs[0]), n, xs[1..], vs[1..])
  {
    assert vs[0] == v(xs[0]);
    var next := NextFrom(m, xs[0]);
    forall k | 0 <= k < |xs| - 1
      ensures LeftmostAt(m, ResumeAt(m, next, xs[1..], k), xs[1..][k])
      ensures vs[1..][k] == v(xs[1..][k])
    {
      assert vs[k + 1] == v(xs[k + 1]);
      assert ResumeAt(m, next, xs[1..], k) == ResumeAt(m, from, xs, k + 1);
    }
    assert ResumeAt(m, next, xs[1..], |xs| - 1) == ResumeAt(m, from, xs, |xs|);
  }

  /** Matches come in the order of the text, none before `from`. */
  lemma FindAllIncrease<T>(m: Matcher, v: nat -> T, from: nat, n: nat, xs: seq<nat>, vs: seq<T>)
    requires Advances(m) && FindAll(m, v, from, n, xs, vs)
    ensures forall k :: 0 <= k < |xs| ==> from <= xs[k]
    ensures forall k :: 0 < k < |xs| ==> xs[k - 1] < xs[k]
  {
    forall k | 0 <= k < |xs|
      ensures from <= xs[k]
    {
      ResumeAfter(m, v, from, n, xs, vs, k);
      assert vs[k] == v(xs[k]);
    }
    forall k | 0 < k < |xs|
      ensures xs[k - 1] < xs[k]
    {
      assert vs[k] == v(xs[k]);
      assert vs[k - 1] == v(xs[k - 1]);
    }
  }

  /** The search never resumes before `from`. */
  lemma {:induction false} ResumeAfter<T>(m: Matcher, v: nat -> T, from: nat, n: nat, xs: seq<nat>,
                                          vs: seq<T>, k: nat)
    requires Advances(m) && FindAll(m, v, from, n, xs, vs) && k <= |xs|
    ensures from <= ResumeAt(m, from, xs, k)
  {
    if k > 0 {
      ResumeAfter(m, v, from, n, xs, vs, k - 1);
      assert vs[k - 1] == v(xs[k - 1]);
    }
  }

  /** When no match overlaps a match at `x`, the search finds `x` once it resumes at or before
      it. */
  lemma {:induction false} FindAllFinds<T>(m: Matcher, v: nat -> T, from: nat, n: nat, xs: seq<nat>,
                                           vs: seq<T>, k: nat, x: nat)
    requires FindAll(m, v, from, n, xs, vs) && k <= |xs|
    requires ResumeAt(m, from, xs, k) <= x < n && m(x).Some?
    requires forall y: nat :: y < x && m(y).Some? ==> NextFrom(m, y) <= x
    decreases |xs| - k
    ensures v(x) in vs[k..]
  {
    MatchBeforeEnd(m, v, from, n, xs, vs, k, x);
    assert vs[k] == v(xs[k]);
    if xs[k] < x {
      FindAllFinds(m, v, from, n, xs, vs, k + 1, x);
      assert vs[k + 1..] == vs[k..][1..];
    }
  }

  /** A match at or after where the search resumes lies before the end of the text, so the search
      has not run out of matches. */
  lemma MatchBeforeEnd<T>(m: Matcher, v: nat -> T, from: nat, n: nat, xs: seq<nat>, vs: seq<T>, k: nat, x: nat)
    requires FindAll(m, v, from, n, xs, vs) && k <= |xs|
    requires ResumeAt(m, from, xs, k) <= x < n && m(x).Some?
    ensures k < |xs|
  {
    assert NoMatchIn(m, ResumeAt(m, from, xs, |xs|), n);
  }

  /** A match recorded by where it starts. */
  function Start(i: nat): nat {
    i
  }

  /** The text from `from` on with the match starting at each of `xs` replaced by `rep`; each
      stretch between matches is kept. What `re.sub` and `str.replace` return for the matches
      `findall` finds. */
  function Spliced<T>(s: seq<T>, m: Matcher, from: nat, xs: seq<nat>, rep: seq<T>): seq<T>
    decreases |xs|
  {
    if xs == [] then (if from <= |s| then s[from..] else [])
    else
      (if from <= xs[0] <= |s| then s[from..xs[0]] else []) + rep
      + Spliced(s, m, NextFrom(m, xs[0]), xs[1..], rep)
  }

  /** A text made of the stretch before a match at `x`, then `rep`, then the splice from where
      the search resumes after `x`, is the splice from `from` on. */
  lemma SplicedCons<T>(s: seq<T>, m: Matcher, from: nat, x: nat, next: nat, ys: seq<nat>, xs: seq<nat>, rep: seq<T>,
                       tail: seq<T>, whole: seq<T>)
    requires from <= x <= |s| && NextFrom(m, x) == next && xs == [x] + ys
    requires tail == Spliced(s, m, next, ys, rep) && whole == s[from..x] + rep + tail
    ensures whole == Spliced(s, m, from, xs, rep)
  {
    assert xs[1..] == ys;
  }

  /** `f` substitutes `rep` for the matches of `m` in `s`: every match lies within `s`; from each
      position `a`, `f` keeps the text up to the leftmost match and puts `rep` in its place before
      going on from where the search resumes; and it keeps the rest of the text when no match is
      left. */
  ghost predicate SubstitutesBy<T>(s: seq<T>, m: Matcher, rep: seq<T>, f: nat -> seq<T>) {
    && (forall x: nat :: m(x).Some? ==> x < m(x).value <= |s|)
    && (forall a: nat, x: nat {:trigger LeftmostAt(m, a, x)} ::
          a <= |s| && LeftmostAt(m, a, x) ==> f(a) == s[a..x] + rep + f(NextFrom(m, x)))
    && (forall a: nat {:trigger NoMatchIn(m, a, |s|)} :: a <= |s| && NoMatchIn(m, a, |s|) ==> f(a) == s[a..])
  }

  /** A text function that substitutes `rep` for the matches of a search is, from any position,
      the splice of the matches the search finds from there. */
  lemma {:induction false} SplicedBy<T>(s: seq<T>, m: Matcher, rep: seq<T>, f: nat -> seq<T>, from: nat, xs: seq<nat>)
    requires SubstitutesBy(s, m, rep, f)
    requires from <= |s| && FindAll(m, Start, from, |s|, xs, xs)
    decreases |xs|, 1
    ensures f(from) == Spliced(s, m, from, xs, rep)
  {
    if xs == [] {
      SplicedByNone(s, m, rep, f, from, xs);
    } else {
      FindAllUncons(m, Start, from, |s|, xs, xs);
      SplicedByCons(s, m, rep, f, from, xs[0], NextFrom(m, xs[0]), xs[1..], xs);
    }
  }

  /** The end of `SplicedBy`: no match is left. */
  lemma SplicedByNone<T>(s: seq<T>, m: Matcher, rep: seq<T>, f: nat -> seq<T>, from: nat, xs: seq<nat>)
    requires SubstitutesBy(s, m, rep, f)
    requires from <= |s| && FindAll(m, Start, from, |s|, xs, xs) && xs == []
    ensures f(from) == Spliced(s, m, from, xs, rep)
  {
    assert NoMatchIn(m, ResumeAt(m, from, xs, 0), |s|);
  }

  /** The step of `SplicedBy` at the leftmost match `x`. */
  lemma {:induction false} SplicedByCons<T>(s: seq<T>, m: Matcher, rep: seq<T>, f: nat -> seq<T>, from: nat, x: nat,
                                            next: nat, ys: seq<nat>, xs: seq<nat>)
    requires SubstitutesBy(s, m, rep, f)
    requires from <= |s| && LeftmostAt(m, from, x) && NextFrom(m, x) == next
    requires FindAll(m, Start, next, |s|, ys, ys) && xs == [x] + ys
    decreases |xs|, 0
    ensures f(from) == Spliced(s, m, from, xs, rep)
  {
    assert x < next <= |s| && f(from) == s[from..x] + rep + f(next);
    SplicedBy(s, m, rep, f, next, ys);
    SplicedCons(s, m, from, x, next, ys, xs, rep, f(next), f(from));
  }
}
