/** String primitives both release scripts rely on: substring search (`in`, `str.find`),
    Python's `str.replace`, ASCII case mapping and decimal digit runs. */
module Text {
  import opened Results
  import opened Scan

  /** The heading that opens the pending-changes block of a Keep a Changelog document. */
  const UnreleasedHeading := "## [Unreleased]"

  /** `pat` occurs in `s` starting at index `i`. */
  predicate OccursAt(s: string, pat: string, i: int) {
    0 <= i && i + |pat| <= |s| && s[i..i + |pat|] == pat
  }

  /** `str.find(pat, from)`: the least index at or after `from` where `pat` occurs, or -1. */
  function FindFrom(s: string, pat: string, from: nat): (r: int)
    decreases |s| - from
    ensures r == -1 || (from <= r && OccursAt(s, pat, r))
    ensures r == -1 ==> forall i :: from <= i ==> !OccursAt(s, pat, i)
    ensures r != -1 ==> forall i :: from <= i < r ==> !OccursAt(s, pat, i)
  {
    if |s| < from + |pat| then -1
    else if OccursAt(s, pat, from) then from
    else FindFrom(s, pat, from + 1)
  }

  /** Python's `pat in s`. */
  predicate Contains(s: string, pat: string) {
    exists i | 0 <= i <= |s| - |pat| :: OccursAt(s, pat, i)
  }

  /** The least index at or after `from` where `pat` occurs, or the end of `s`:
      where a lazy group followed by `(?=pat|\Z)` stops. */
  function FindOrEnd(s: string, pat: string, from: nat): (r: nat)
    requires from <= |s|
    ensures from <= r <= |s|
    ensures r == |s| || OccursAt(s, pat, r)
    ensures forall i :: from <= i < r ==> !OccursAt(s, pat, i)
  {
    var i := FindFrom(s, pat, from);
    if i < 0 then |s| else i
  }

  /** Python's `s.replace(pat, rep)`: every non-overlapping occurrence, scanning left to right,
      is replaced; an empty pattern matches before every character and at the end. */
  function ReplaceAll(s: string, pat: string, rep: string): string {
    if |pat| == 0 then InsertEverywhere(s, rep) else ReplaceFrom(s, pat, rep, 0)
  }

  /** `s.replace("", rep)`: `rep` before every character and at the end. */
  function InsertEverywhere(s: string, rep: string): string {
    if s == [] then rep else rep + [s[0]] + InsertEverywhere(s[1..], rep)
  }

  /** `s.replace(pat, rep)` for a non-empty `pat`, from index `from` on. */
  function ReplaceFrom(s: string, pat: string, rep: string, from: nat): string
    requires |pat| > 0 && from <= |s|
    decreases |s| - from
  {
    var i := FindFrom(s, pat, from);
    if i < 0 then s[from..] else s[from..i] + rep + ReplaceFrom(s, pat, rep, i + |pat|)
  }

  /** Two texts that agree on their first `m` characters have the same occurrences there. */
  lemma OccursAtAgree(s: string, t: string, pat: string, j: nat, m: nat)
    requires m <= |s| && m <= |t| && s[..m] == t[..m]
    requires j + |pat| <= m
    ensures OccursAt(s, pat, j) == OccursAt(t, pat, j)
  {
    assert s[j..j + |pat|] == s[..m][j..j + |pat|];
    assert t[j..j + |pat|] == t[..m][j..j + |pat|];
  }

  /** An occurrence inside a suffix is an occurrence in the whole text. */
  lemma OccursInSuffix(s: string, pat: string, off: nat, k: nat)
    requires off <= |s| && OccursAt(s[off..], pat, k)
    ensures OccursAt(s, pat, off + k)
  {
    assert s[off..][k..k + |pat|] == s[off + k..off + k + |pat|];
  }

  /** An occurrence inside a slice is an occurrence in the whole text. */
  lemma OccursInSlice(s: string, pat: string, lo: nat, hi: nat, k: nat)
    requires lo <= hi <= |s| && OccursAt(s[lo..hi], pat, k)
    ensures OccursAt(s, pat, lo + k)
  {
    assert s[lo..hi][k..k + |pat|] == s[lo..hi][..k + |pat|][k..];
    assert s[lo..hi][..k + |pat|] == s[lo..lo + k + |pat|];
    assert s[lo..lo + k + |pat|][k..] == s[lo + k..lo + k + |pat|];
  }

  /** A stretch in which a non-empty pattern starts nowhere does not contain it. */
  lemma AbsentFromSlice(s: string, pat: string, lo: nat, hi: nat)
    requires |pat| > 0 && lo <= hi <= |s|
    requires forall i :: lo <= i < hi ==> !OccursAt(s, pat, i)
    ensures !Contains(s[lo..hi], pat)
  {
    forall k | 0 <= k <= hi - lo - |pat|
      ensures !OccursAt(s[lo..hi], pat, k)
    {
      if OccursAt(s[lo..hi], pat, k) {
        OccursInSlice(s, pat, lo, hi, k);
      }
    }
  }

  /** Searching the slice `s[lo..hi]` finds what searching `s` finds, when that lies inside the
      slice (or is its end). */
  lemma FindOrEndInSlice(s: string, pat: string, lo: nat, hi: nat, from: nat)
    requires |pat| > 0 && lo <= from <= hi <= |s|
    requires FindOrEnd(s, pat, from) == hi || FindOrEnd(s, pat, from) + |pat| <= hi
    ensures FindOrEnd(s[lo..hi], pat, from - lo) == FindOrEnd(s, pat, from) - lo
  {
    var e := FindOrEnd(s, pat, from);
    var t := s[lo..hi];
    forall k | from - lo <= k < e - lo
      ensures !OccursAt(t, pat, k)
    {
      if OccursAt(t, pat, k) {
        OccursInSlice(s, pat, lo, hi, k);
      }
    }
    if e < hi {
      forall j | 0 <= j < |pat|
        ensures t[e - lo..e - lo + |pat|][j] == pat[j]
      {
        assert s[e..e + |pat|][j] == s[e + j];
      }
      assert t[e - lo..e - lo + |pat|] == pat;
      FindFromAt(t, pat, from - lo, e - lo);
    } else {
      assert FindFrom(t, pat, from - lo) == -1;
    }
  }

  /** Where a text occurs, so does each of its prefixes. */
  lemma OccursPrefix(s: string, pat: string, n: nat, j: nat)
    requires n <= |pat| && OccursAt(s, pat, j)
    ensures OccursAt(s, pat[..n], j)
  {
    assert s[j..j + n] == s[j..j + |pat|][..n];
  }

  /** `pat` occurs in `s` at `j`, an index other than `i`. */
  predicate OccursElsewhere(s: string, pat: string, i: int, j: int) {
    j != i && OccursAt(s, pat, j)
  }

  /** `pat` occurs in `s` at `i` and nowhere else. */
  ghost predicate OccursOnlyAt(s: string, pat: string, i: int) {
    OccursAt(s, pat, i) && forall j :: !OccursElsewhere(s, pat, i, j)
  }

  /** Any occurrence of a pattern that occurs only at `i` is the one at `i`. */
  lemma OnlyAt(s: string, pat: string, i: int, j: int)
    requires OccursOnlyAt(s, pat, i) && OccursAt(s, pat, j)
    ensures j == i
  {
    assert !OccursElsewhere(s, pat, i, j);
  }

  /** The search finds a pattern that occurs only at `i` there. */
  lemma OnlyAtFound(s: string, pat: string, i: nat)
    requires OccursOnlyAt(s, pat, i)
    ensures FindFrom(s, pat, 0) == i
  {
    forall j | 0 <= j < i
      ensures !OccursAt(s, pat, j)
    {
      assert !OccursElsewhere(s, pat, i, j);
    }
    FindFromAt(s, pat, 0, i);
  }

  /** A text that occurs at `i`, and whose first `n` characters occur only there, occurs only
      there. */
  lemma UniqueByPrefix(s: string, pat: string, n: nat, i: int)
    requires n <= |pat| && OccursAt(s, pat, i) && OccursOnlyAt(s, pat[..n], i)
    ensures OccursOnlyAt(s, pat, i)
  {
    forall j | OccursAt(s, pat, j)
      ensures j == i
    {
      OccursPrefix(s, pat, n, j);
      OnlyAt(s, pat[..n], i, j);
    }
  }

  /** `str.find` and `in` agree. */
  lemma FindContains(s: string, pat: string)
    ensures FindFrom(s, pat, 0) >= 0 <==> Contains(s, pat)
  {
    if FindFrom(s, pat, 0) >= 0 {
      assert OccursAt(s, pat, FindFrom(s, pat, 0));
    }
  }

  /** When a non-empty pattern occurs exactly once, `replace` rewrites that occurrence and keeps
      the text before and after it. */
  lemma {:induction false} ReplaceUnique(s: string, pat: string, rep: string, i: nat)
    requires |pat| > 0 && OccursOnlyAt(s, pat, i)
    ensures ReplaceAll(s, pat, rep) == s[..i] + rep + s[i + |pat|..]
  {
    OnlyAtFound(s, pat, i);
    var e := i + |pat|;
    if FindFrom(s, pat, e) >= 0 {
      OnlyAt(s, pat, i, FindFrom(s, pat, e));
    }
    assert ReplaceFrom(s, pat, rep, e) == s[e..];
    assert s[0..i] == s[..i];
  }

  /** The search from `from` finds the first occurrence at or after `from`. */
  lemma FindFromAt(s: string, pat: string, from: nat, i: nat)
    requires from <= i && OccursAt(s, pat, i) && forall j :: from <= j < i ==> !OccursAt(s, pat, j)
    ensures FindFrom(s, pat, from) == i
  {
  }

  /** Two texts that agree up to `m`, one holding the pattern at `k` within that stretch, are
      searched alike from any `from` up to `k`. */
  lemma FindFromAgree(s: string, t: string, pat: string, from: nat, m: nat, k: nat)
    requires m <= |s| && m <= |t| && s[..m] == t[..m]
    requires from <= k && k + |pat| <= m && OccursAt(s, pat, k)
    ensures FindFrom(s, pat, from) == FindFrom(t, pat, from)
    ensures from <= FindFrom(s, pat, from) <= k
  {
    var r := FindFrom(s, pat, from);
    OccursAtAgree(s, t, pat, r, m);
    forall j | from <= j < r
      ensures !OccursAt(t, pat, j)
    {
      OccursAtAgree(s, t, pat, j, m);
    }
    FindFromAt(t, pat, from, r);
  }

  /** The three parts of a joined text can be sliced back out of it. */
  lemma JoinSlices(a: string, b: string, c: string)
    ensures var r := a + b + c;
            r[..|a|] == a && r[|a|..|a| + |b|] == b && r[|a| + |b|..] == c
  {
  }

  /** A text in which a non-empty pattern does not occur is unchanged by `replace`. */
  lemma ReplaceAbsent(s: string, pat: string, rep: string)
    requires |pat| > 0 && !Contains(s, pat)
    ensures ReplaceAll(s, pat, rep) == s
  {
  }

  /** A non-empty pattern as a matcher: an occurrence at `i`, the one a search from `i` finds
      there, ends `|pat|` later. */
  function PatternMatcher(s: string, pat: string): Matcher {
    (i: nat) => if OccursAt(s, pat, i) then Some(i + |pat|) else None
  }

  /** The starts of the occurrences `replace` rewrites from `from` on: the first one, then the
      first one after it, and so on. */
  function Occurrences(s: string, pat: string, from: nat): seq<nat>
    requires |pat| > 0 && from <= |s|
    decreases |s| - from
  {
    var i := FindFrom(s, pat, from);
    if i < 0 then [] else [i] + Occurrences(s, pat, i + |pat|)
  }

  /** `replace` of a non-empty pattern rewrites exactly the occurrences a left-to-right search
      finds, each search resuming after the previous occurrence, and keeps the text between them:
      the second and later occurrences as well as the first. */
  lemma ReplaceAllSplice(s: string, pat: string, rep: string)
    requires |pat| > 0
    ensures exists xs :: && FindAll(PatternMatcher(s, pat), Start, 0, |s|, xs, xs)
                         && ReplaceAll(s, pat, rep) == Spliced(s, PatternMatcher(s, pat), 0, xs, rep)
  {
    var xs := Occurrences(s, pat, 0);
    OccurrencesFound(s, pat, 0, xs);
    OccurrencesWithin(s, pat);
    ReplaceFound(s, pat, rep);
    ReplaceNotFound(s, pat, rep);
    SplicedBy(s, PatternMatcher(s, pat), rep, ReplaceRest(s, pat, rep), 0, xs);
  }

  /** The occurrences `xs` from `from` on are what a left-to-right search finds. */
  lemma {:induction false} OccurrencesFound(s: string, pat: string, from: nat, xs: seq<nat>)
    requires |pat| > 0 && from <= |s| && xs == Occurrences(s, pat, from)
    decreases |s| - from, 1
    ensures FindAll(PatternMatcher(s, pat), Start, from, |s|, xs, xs)
  {
    var i := FindFrom(s, pat, from);
    OccurrencesStep(s, pat, from);
    if i < 0 {
      NothingFound(s, pat, from);
    } else {
      OccurrencesFoundAt(s, pat, from, i, Occurrences(s, pat, i + |pat|), xs);
    }
  }

  /** `OccurrencesFound` when the first occurrence from `from` on is at `i`. */
  lemma {:induction false} OccurrencesFoundAt(s: string, pat: string, from: nat, i: nat, ys: seq<nat>, xs: seq<nat>)
    requires |pat| > 0 && from <= i && FindFrom(s, pat, from) == i && i + |pat| <= |s|
    requires ys == Occurrences(s, pat, i + |pat|) && xs == [i] + ys
    decreases |s| - from, 0
    ensures FindAll(PatternMatcher(s, pat), Start, from, |s|, xs, xs)
  {
    OccurrencesFound(s, pat, i + |pat|, ys);
    FoundFirst(s, pat, from, i, ys, xs);
  }

  /** The occurrences from `from` on: none, or the first one followed by those after it. */
  lemma OccurrencesStep(s: string, pat: string, from: nat)
    requires |pat| > 0 && from <= |s|
    ensures var i := FindFrom(s, pat, from);
            if i < 0 then Occurrences(s, pat, from) == []
            else i + |pat| <= |s| && Occurrences(s, pat, from) == [i] + Occurrences(s, pat, i + |pat|)
  {
  }

  /** Where the pattern does not occur from `from` on, the search finds nothing. */
  lemma NothingFound(s: string, pat: string, from: nat)
    requires |pat| > 0 && from <= |s| && FindFrom(s, pat, from) < 0
    ensures FindAll(PatternMatcher(s, pat), Start, from, |s|, [], [])
  {
    var m := PatternMatcher(s, pat);
    forall x: nat | from <= x < |s|
      ensures m(x).None?
    {
      assert !OccursAt(s, pat, x);
    }
  }
  /** The search from `from` finds the first occurrence, at `i`, then goes on after it. */
  lemma FoundFirst(s: string, pat: string, from: nat, i: nat, ys: seq<nat>, xs: seq<nat>)
    requires |pat| > 0 && from <= |s| && FindFrom(s, pat, from) == i && xs == [i] + ys
    requires FindAll(PatternMatcher(s, pat), Start, i + |pat|, |s|, ys, ys)
    ensures FindAll(PatternMatcher(s, pat), Start, from, |s|, xs, xs)
  {
    var m := PatternMatcher(s, pat);
    assert m(i).Some? && NextFrom(m, i) == i + |pat|;
    FindAllCons(m, Start, i, |s|, ys, ys);
    forall y: nat | from <= y < i
      ensures m(y).None?
    {
      assert !OccursAt(s, pat, y);
    }
    FindAllSkipTo(m, Start, from, i, |s|, xs, xs);
  }

  /** `replace` from `from` on: the rest of the text, or the text up to the first occurrence,
      then `rep`, then `replace` after it. */
  lemma ReplaceStep(s: string, pat: string, rep: string, from: nat)
    requires |pat| > 0 && from <= |s|
    ensures var i := FindFrom(s, pat, from);
            if i < 0 then ReplaceFrom(s, pat, rep, from) == s[from..]
            else i + |pat| <= |s| && ReplaceFrom(s, pat, rep, from) == s[from..i] + rep + ReplaceFrom(s, pat, rep, i + |pat|)
  {
  }

  /** `replace` from each position on, as a function of the position. */
  function ReplaceRest(s: string, pat: string, rep: string): nat -> string {
    (a: nat) => if |pat| > 0 && a <= |s| then ReplaceFrom(s, pat, rep, a) else []
  }

  /** Every occurrence of the pattern lies within the text. */
  lemma OccurrencesWithin(s: string, pat: string)
    requires |pat| > 0
    ensures var m := PatternMatcher(s, pat);
            forall x: nat :: m(x).Some? ==> x < m(x).value <= |s|
  {
  }

  /** `replace` from `a` on keeps the text up to the leftmost occurrence, puts `rep` in its place
      and goes on after it. */
  lemma ReplaceFound(s: string, pat: string, rep: string)
    requires |pat| > 0
    ensures var m, f := PatternMatcher(s, pat), ReplaceRest(s, pat, rep);
            forall a: nat, x: nat {:trigger LeftmostAt(m, a, x)} :: a <= |s| && LeftmostAt(m, a, x) ==> f(a) == s[a..x] + rep + f(NextFrom(m, x))
  {
    var m, f := PatternMatcher(s, pat), ReplaceRest(s, pat, rep);
    forall a: nat, x: nat {:trigger LeftmostAt(m, a, x)} | a <= |s| && LeftmostAt(m, a, x)
      ensures f(a) == s[a..x] + rep + f(NextFrom(m, x))
    {
      ReplaceRestAt(s, pat, rep, a, x);
    }
  }

  /** `ReplaceAt` for `ReplaceRest`. */
  lemma ReplaceRestAt(s: string, pat: string, rep: string, a: nat, x: nat)
    requires |pat| > 0 && a <= |s| && LeftmostAt(PatternMatcher(s, pat), a, x)
    ensures var f := ReplaceRest(s, pat, rep);
            f(a) == s[a..x] + rep + f(NextFrom(PatternMatcher(s, pat), x))
  {
    ReplaceAt(s, pat, rep, a, x);
  }

  /** One instance of `ReplaceFound`. */
  lemma ReplaceAt(s: string, pat: string, rep: string, a: nat, x: nat)
    requires |pat| > 0 && a <= |s| && LeftmostAt(PatternMatcher(s, pat), a, x)
    ensures x + |pat| <= |s| && NextFrom(PatternMatcher(s, pat), x) == x + |pat|
    ensures ReplaceFrom(s, pat, rep, a) == s[a..x] + rep + ReplaceFrom(s, pat, rep, x + |pat|)
  {
    FoundAt(s, pat, a, x);
    ReplaceStep(s, pat, rep, a);
  }

  /** `replace` from `a` on keeps the rest of the text when the pattern no longer occurs. */
  lemma ReplaceNotFound(s: string, pat: string, rep: string)
    requires |pat| > 0
    ensures var m, f := PatternMatcher(s, pat), ReplaceRest(s, pat, rep);
            forall a: nat {:trigger NoMatchIn(m, a, |s|)} :: a <= |s| && NoMatchIn(m, a, |s|) ==> f(a) == s[a..]
  {
    var m, f := PatternMatcher(s, pat), ReplaceRest(s, pat, rep);
    forall a: nat {:trigger NoMatchIn(m, a, |s|)} | a <= |s| && NoMatchIn(m, a, |s|)
      ensures f(a) == s[a..]
    {
      var r := FindFrom(s, pat, a);
      var j: nat := if r >= 0 then r else a;
      assert m(j).None?;
      ReplaceStep(s, pat, rep, a);
    }
  }

  /** The leftmost occurrence a search from `from` finds is the one `find` returns. */
  lemma FoundAt(s: string, pat: string, from: nat, i: nat)
    requires |pat| > 0 && LeftmostAt(PatternMatcher(s, pat), from, i)
    ensures FindFrom(s, pat, from) == i && i + |pat| <= |s| && NextFrom(PatternMatcher(s, pat), i) == i + |pat|
  {
    var m := PatternMatcher(s, pat);
    assert OccursAt(s, pat, i);
    forall j | from <= j < i
      ensures !OccursAt(s, pat, j)
    {
      assert m(j).None?;
    }
    FindFromAt(s, pat, from, i);
  }

  // ---------------------------------------------------------------- digits

  predicate IsDigit(c: char) {
    '0' <= c <= '9'
  }

  predicate AllDigits(s: string) {
    forall i :: 0 <= i < |s| ==> IsDigit(s[i])
  }

  function DigitValue(c: char): nat
    requires IsDigit(c)
  {
    c as int - '0' as int
  }

  function DigitChar(d: nat): (c: char)
    requires d < 10
    ensures IsDigit(c) && DigitValue(c) == d
  {
    ('0' as int + d) as char
  }

  /** Python's `int(s)` on a run of ASCII digits (leading zeros allowed). */
  function DigitsValue(s: string): nat
    requires AllDigits(s)
    decreases |s|
  {
    if s == [] then 0 else DigitsValue(s[..|s| - 1]) * 10 + DigitValue(s[|s| - 1])
  }

  /** Python's `str(n)` for a non-negative integer: its decimal digits, without leading zeros. */
  function NatToString(n: nat): (r: string)
    decreases n
    ensures r != [] && AllDigits(r) && DigitsValue(r) == n
    ensures r[0] == '0' ==> r == "0"
  {
    if n < 10 then [DigitChar(n)]
    else
      var front := NatToString(n / 10);
      var r := front + [DigitChar(n % 10)];
      assert r[..|r| - 1] == front;
      r
  }

  /** A digit run without a superfluous leading zero is the decimal form of its value. */
  lemma {:induction false} NatToStringOfDigits(s: string)
    requires s != [] && AllDigits(s) && (s[0] == '0' ==> s == "0")
    ensures NatToString(DigitsValue(s)) == s
  {
    if |s| > 1 {
      var front := s[..|s| - 1];
      DigitsValueAtLeastLead(front);
      NatToStringOfDigits(front);
      var n := DigitsValue(s);
      assert n / 10 == DigitsValue(front) && n % 10 == DigitValue(s[|s| - 1]);
      assert s == front + [s[|s| - 1]];
    }
  }

  /** A digit run is worth at least its leading digit. */
  lemma {:induction false} DigitsValueAtLeastLead(s: string)
    requires s != [] && AllDigits(s)
    ensures DigitsValue(s) >= DigitValue(s[0])
  {
    if |s| > 1 {
      DigitsValueAtLeastLead(s[..|s| - 1]);
    }
  }

  /** The index just past the run of ASCII digits that starts at `i`. */
  function DigitRunEnd(s: string, i: nat): (j: nat)
    requires i <= |s|
    decreases |s| - i
    ensures i <= j <= |s| && AllDigits(s[i..j]) && (j < |s| ==> !IsDigit(s[j]))
  {
    if i < |s| && IsDigit(s[i]) then
      var j := DigitRunEnd(s, i + 1);
      assert s[i..j] == [s[i]] + s[i + 1..j];
      j
    else i
  }

  /** The digit run that starts at `i` ends exactly where the digits stop. */
  lemma {:induction false} DigitRunEndExact(s: string, i: nat, j: nat)
    requires i <= j <= |s| && AllDigits(s[i..j]) && (j < |s| ==> !IsDigit(s[j]))
    ensures DigitRunEnd(s, i) == j
    decreases j - i
  {
    if i < j {
      assert s[i] == s[i..j][0];
      assert s[i + 1..j] == s[i..j][1..];
      DigitRunEndExact(s, i + 1, j);
    }
  }

  // ---------------------------------------------------------------- case

  function LowerChar(c: char): char {
    if 'A' <= c <= 'Z' then (c as int + 32) as char else c
  }

  function UpperChar(c: char): char {
    if 'a' <= c <= 'z' then (c as int - 32) as char else c
  }

  /** `str.lower()`, on ASCII letters. */
  function Lower(s: string): (r: string)
    ensures |r| == |s|
  {
    seq(|s|, i requires 0 <= i < |s| => LowerChar(s[i]))
  }

  /** `str.capitalize()`, on ASCII letters: first character upper case, the rest lower case. */
  function Capitalize(s: string): (r: string)
    ensures |r| == |s|
  {
    if s == [] then [] else [UpperChar(s[0])] + Lower(s[1..])
  }
}
