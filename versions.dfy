/** Semantic-version arithmetic of the version manager: parsing and formatting
    MAJOR.MINOR.PATCH, bumping by kind, and reading and rewriting the
    `version='…'` token of a setup script. */
module Versions {
  import opened Text
  import opened Results
  import opened Scan

  datatype Version = Version(major: nat, minor: nat, patch: nat)

  /** Strict lexicographic order on (major, minor, patch), as Python compares int tuples and lists. */
  predicate Less(v: Version, w: Version) {
    || v.major < w.major
    || (v.major == w.major && v.minor < w.minor)
    || (v.major == w.major && v.minor == w.minor && v.patch < w.patch)
  }

  lemma {:induction false} LessTransitive(u: Version, v: Version, w: Version)
    requires Less(u, v) && Less(v, w)
    ensures Less(u, w)
  {
  }

  // ---------------------------------------------------------------- parse and format

  /** `s` reads digits `.` digits `.` digits, the two dots standing at `i` and `j`. */
  predicate SplitsAt(s: string, i: nat, j: nat) {
    && 0 < i && i + 1 < j && j + 1 < |s|
    && s[i] == '.' && s[j] == '.'
    && AllDigits(s[..i]) && AllDigits(s[i + 1..j]) && AllDigits(s[j + 1..])
  }

  /** The three numbers a split version string denotes. */
  function SplitValue(s: string, i: nat, j: nat): Version
    requires SplitsAt(s, i, j)
  {
    Version(DigitsValue(s[..i]), DigitsValue(s[i + 1..j]), DigitsValue(s[j + 1..]))
  }

  /** A full match of `(\d+)\.(\d+)\.(\d+)` on the whole of `s`, each group read with `int()`. */
  function ReadTriple(s: string): (r: Option<Version>)
  {
    var j1 := DigitRunEnd(s, 0);
    if j1 == 0 || j1 == |s| || s[j1] != '.' then None
    else
      var j2 := DigitRunEnd(s, j1 + 1);
      if j2 == j1 + 1 || j2 == |s| || s[j2] != '.' then None
      else
        var j3 := DigitRunEnd(s, j2 + 1);
        if j3 == j2 + 1 || j3 != |s| then None
        else
          assert s[..j1] == s[0..j1] && s[j2 + 1..] == s[j2 + 1..j3];
          assert SplitsAt(s, j1, j2);
          Some(SplitValue(s, j1, j2))
  }

  /** Every string of the shape digits `.` digits `.` digits reads as the numbers it spells. */
  lemma ReadTripleAccepts(s: string, i: nat, j: nat)
    requires SplitsAt(s, i, j)
    ensures ReadTriple(s) == Some(SplitValue(s, i, j))
  {
    DigitRunEndExact(s, 0, i);
    DigitRunEndExact(s, i + 1, j);
    DigitRunEndExact(s, j + 1, |s|);
  }

  /** Whatever reads as a version is three digit runs split by two dots, read as the numbers they
      spell. */
  lemma ReadTripleSplits(s: string)
    requires ReadTriple(s).Some?
    ensures exists i, j :: SplitsAt(s, i, j) && ReadTriple(s).value == SplitValue(s, i, j)
  {
    var i := DigitRunEnd(s, 0);
    var j := DigitRunEnd(s, i + 1);
    assert s[..i] == s[0..i] && s[j + 1..] == s[j + 1..|s|];
    assert SplitsAt(s, i, j);
  }

  /** The text `$` lets a pattern end before: the whole string, less one final newline. */
  function Chomp(s: string): (r: string)
    ensures r == s || s == r + "\n"
  {
    if |s| > 0 && s[|s| - 1] == '\n' then s[..|s| - 1] else s
  }

  /** `parse_version`: `^(\d+)\.(\d+)\.(\d+)$`, where `$` also matches before a final newline. */
  function ParseVersion(s: string): (r: Result<Version>)
    ensures r.Ok? ==> exists i, j :: SplitsAt(Chomp(s), i, j) && r.value == SplitValue(Chomp(s), i, j)
    ensures r.Err? ==> r.message == "Invalid version format: " + s
  {
    match ReadTriple(Chomp(s))
    case None => Err("Invalid version format: " + s)
    case Some(v) => ReadTripleSplits(Chomp(s)); Ok(v)
  }

  /** Every string of the shape digits `.` digits `.` digits parses, to the numbers it spells. */
  lemma ParseVersionAccepts(s: string, i: nat, j: nat)
    requires SplitsAt(s, i, j)
    ensures ParseVersion(s) == Ok(SplitValue(s, i, j))
  {
    assert IsDigit(s[|s| - 1]) by {
      assert s[|s| - 1] == s[j + 1..][|s| - j - 2];
    }
    assert Chomp(s) == s;
    ReadTripleAccepts(s, i, j);
  }

  /** `parse_version` succeeds exactly on three dot-separated digit runs, optionally followed by
      one newline, and nothing else. */
  lemma ParseVersionIff(s: string)
    ensures ParseVersion(s).Ok? <==> exists i, j :: SplitsAt(Chomp(s), i, j)
  {
    if i, j :| SplitsAt(Chomp(s), i, j) {
      ReadTripleAccepts(Chomp(s), i, j);
    }
  }

  /** `format_version`: the three numbers in decimal, joined by dots. */
  function FormatVersion(v: Version): (r: string)
    ensures forall k :: 0 <= k < |r| ==> IsDigit(r[k]) || r[k] == '.'
  {
    NatToString(v.major) + "." + NatToString(v.minor) + "." + NatToString(v.patch)
  }

  /** Three non-empty digit runs joined by dots parse to their values. */
  lemma ParseJoined(a: string, b: string, c: string, s: string)
    requires a != [] && b != [] && c != [] && AllDigits(a) && AllDigits(b) && AllDigits(c)
    requires s == a + "." + b + "." + c
    ensures ParseVersion(s) == Ok(Version(DigitsValue(a), DigitsValue(b), DigitsValue(c)))
  {
    var i, j := |a|, |a| + 1 + |b|;
    JoinedSplits(a, b, c, s);
    assert s[..i] == a && s[i + 1..j] == b && s[j + 1..] == c;
    assert SplitValue(s, i, j) == Version(DigitsValue(a), DigitsValue(b), DigitsValue(c));
    ParseVersionAccepts(s, i, j);
  }

  /** Three non-empty digit runs joined by dots split at the two dots, into those runs. */
  lemma JoinedSplits(a: string, b: string, c: string, s: string)
    requires a != [] && b != [] && c != [] && AllDigits(a) && AllDigits(b) && AllDigits(c)
    requires s == a + "." + b + "." + c
    ensures SplitsAt(s, |a|, |a| + 1 + |b|)
    ensures s[..|a|] == a && s[|a| + 1..|a| + 1 + |b|] == b && s[|a| + 1 + |b| + 1..] == c
  {
    var i, j := |a|, |a| + 1 + |b|;
    assert s[..i] == a;
    assert s[i + 1..j] == b;
    assert s[j + 1..] == c;
  }

  /** A text splits into three digit runs in one way only. */
  lemma SplitUnique(s: string, i: nat, j: nat, i': nat, j': nat)
    requires SplitsAt(s, i, j) && SplitsAt(s, i', j')
    ensures i == i' && j == j'
  {
    DotPosition(s, 0, i, i');
    DotPosition(s, i + 1, j, j');
  }

  /** Formatting then parsing gives back the version. */
  lemma FormatParseRoundTrip(v: Version)
    ensures ParseVersion(FormatVersion(v)) == Ok(v)
  {
    ParseJoined(NatToString(v.major), NatToString(v.minor), NatToString(v.patch), FormatVersion(v));
  }

  /** Parsing then formatting gives back the string exactly when no number has a superfluous leading zero. */
  lemma ParseFormatRoundTrip(s: string, i: nat, j: nat)
    requires SplitsAt(s, i, j)
    ensures ParseVersion(s).Ok?
    ensures FormatVersion(ParseVersion(s).value) == s <==>
              && (s[0] == '0' ==> i == 1)
              && (s[i + 1] == '0' ==> j == i + 2)
              && (s[j + 1] == '0' ==> |s| == j + 2)
  {
    ParseVersionAccepts(s, i, j);
    var v := ParseVersion(s).value;
    if (s[0] == '0' ==> i == 1) && (s[i + 1] == '0' ==> j == i + 2) && (s[j + 1] == '0' ==> |s| == j + 2) {
      CanonicalRejoins(s, i, j, v);
    }
    if FormatVersion(v) == s {
      FormattedIsCanonical(s, i, j, NatToString(v.major), NatToString(v.minor), NatToString(v.patch));
    }
  }

  /** A split text without superfluous leading zeros is the format of the numbers it spells. */
  lemma CanonicalRejoins(s: string, i: nat, j: nat, v: Version)
    requires SplitsAt(s, i, j) && v == SplitValue(s, i, j)
    requires s[0] == '0' ==> i == 1
    requires s[i + 1] == '0' ==> j == i + 2
    requires s[j + 1] == '0' ==> |s| == j + 2
    ensures FormatVersion(v) == s
  {
    var a, b, c := s[..i], s[i + 1..j], s[j + 1..];
    NatToStringOfDigits(a);
    NatToStringOfDigits(b);
    NatToStringOfDigits(c);
    assert FormatVersion(v) == a + "." + b + "." + c;
    SplitRejoins(s, i, j);
  }

  /** A split text that is the decimal forms of three numbers joined by dots has no superfluous
      leading zero. */
  lemma FormattedIsCanonical(s: string, i: nat, j: nat, a: string, b: string, c: string)
    requires SplitsAt(s, i, j) && s == a + "." + b + "." + c
    requires a != [] && AllDigits(a) && (a[0] == '0' ==> a == "0")
    requires b != [] && AllDigits(b) && (b[0] == '0' ==> b == "0")
    requires c != [] && AllDigits(c) && (c[0] == '0' ==> c == "0")
    ensures s[0] == '0' ==> i == 1
    ensures s[i + 1] == '0' ==> j == i + 2
    ensures s[j + 1] == '0' ==> |s| == j + 2
  {
    JoinedSplits(a, b, c, s);
    SplitUnique(s, i, j, |a|, |a| + 1 + |b|);
    assert s[0] == a[0] && s[i + 1] == b[0] && s[j + 1] == c[0];
  }

  /** The first dot after a run of digits is where that run stops. */
  lemma DotPosition(s: string, lo: nat, i: nat, i': nat)
    requires lo <= i < |s| && lo <= i' < |s| && s[i] == '.' && s[i'] == '.'
    requires AllDigits(s[lo..i]) && AllDigits(s[lo..i'])
    ensures i == i'
  {
  }

  lemma SplitRejoins(s: string, i: nat, j: nat)
    requires 0 < i < j < |s| && s[i] == '.' && s[j] == '.'
    ensures s == s[..i] + "." + s[i + 1..j] + "." + s[j + 1..]
  {
    assert s == s[..i] + [s[i]] + s[i + 1..j] + [s[j]] + s[j + 1..];
  }

  // ---------------------------------------------------------------- bump

  /** The bump rules of `bump_version`; any kind other than major, minor or patch raises. */
  function Bump(v: Version, kind: string): (r: Result<Version>)
    ensures r.Ok? <==> kind == "major" || kind == "minor" || kind == "patch"
    ensures r.Ok? ==> Less(v, r.value)
    ensures kind == "major" ==> r == Ok(Version(v.major + 1, 0, 0))
    ensures kind == "minor" ==> r == Ok(Version(v.major, v.minor + 1, 0))
    ensures kind == "patch" ==> r == Ok(Version(v.major, v.minor, v.patch + 1))
  {
    if kind == "major" then Ok(Version(v.major + 1, 0, 0))
    else if kind == "minor" then Ok(Version(v.major, v.minor + 1, 0))
    else if kind == "patch" then Ok(Version(v.major, v.minor, v.patch + 1))
    else Err("Invalid bump type: " + kind)
  }

  /** Each bump lands on the least version above the current one that changes the component it names:
      a major bump on the least version with a greater major number, a minor bump on the least one with
      a greater (major, minor) pair, a patch bump on the immediate successor. */
  lemma BumpIsLeast(v: Version, kind: string, w: Version)
    requires Bump(v, kind).Ok?
    requires kind == "major" ==> w.major > v.major
    requires kind == "minor" ==> Less(Version(v.major, v.minor, 0), Version(w.major, w.minor, 0))
    requires kind == "patch" ==> Less(v, w)
    ensures !Less(w, Bump(v, kind).value)
  {
  }

  // ---------------------------------------------------------------- the version= token

  predicate IsQuote(c: char) {
    c == '\'' || c == '"'
  }

  /** The first quote character at or after `i`, or the end. */
  function QuoteFrom(s: string, i: nat): (k: nat)
    requires i <= |s|
    decreases |s| - i
    ensures i <= k <= |s| && (k < |s| ==> IsQuote(s[k]))
    ensures forall x :: i <= x < k ==> !IsQuote(s[x])
  {
    if i == |s| || IsQuote(s[i]) then i else QuoteFrom(s, i + 1)
  }

  /** The match of `version=['"]([^'"]+)['"]` that starts at `i`, as the index of its closing quote. */
  function TokenAt(s: string, i: nat): Option<nat> {
    if OccursAt(s, "version=", i) && i + 8 < |s| && IsQuote(s[i + 8]) then
      var k := QuoteFrom(s, i + 9);
      if i + 9 < k < |s| then Some(k) else None
    else None
  }

  /** A token is `version=`, a quote, a non-empty run of non-quotes and a closing quote; and
      wherever that shape starts, a token starts. */
  lemma TokenShape(s: string, i: nat)
    ensures TokenAt(s, i).Some? ==>
              && OccursAt(s, "version=", i) && i + 8 < |s| && IsQuote(s[i + 8])
              && i + 9 < TokenAt(s, i).value < |s| && IsQuote(s[TokenAt(s, i).value])
              && forall x :: i + 9 <= x < TokenAt(s, i).value ==> !IsQuote(s[x])
    ensures forall k | i + 9 < k < |s| ::
              && OccursAt(s, "version=", i) && IsQuote(s[i + 8]) && IsQuote(s[k])
              && (forall x :: i + 9 <= x < k ==> !IsQuote(s[x]))
              ==> TokenAt(s, i) == Some(k)
  {
    forall k | i + 9 < k < |s| && OccursAt(s, "version=", i) && IsQuote(s[i + 8]) && IsQuote(s[k])
               && (forall x :: i + 9 <= x < k ==> !IsQuote(s[x]))
      ensures TokenAt(s, i) == Some(k)
    {
      QuoteFromAt(s, i + 9, k);
    }
  }

  /** The first quote from `i` on is at `k` when `k` holds a quote and nothing before it does. */
  lemma {:induction false} QuoteFromAt(s: string, i: nat, k: nat)
    requires i <= k < |s| && IsQuote(s[k]) && forall x :: i <= x < k ==> !IsQuote(s[x])
    decreases k - i
    ensures QuoteFrom(s, i) == k
  {
    if i < k {
      QuoteFromAt(s, i + 1, k);
    }
  }

  /** `re.search` for the token from `from` on: the leftmost start at which it matches. */
  function FirstToken(s: string, from: nat): (r: Option<nat>)
    decreases |s| - from
    ensures r.Some? ==> from <= r.value && TokenAt(s, r.value).Some?
    ensures r.Some? ==> forall x :: from <= x < r.value ==> TokenAt(s, x).None?
    ensures r.None? ==> forall x :: from <= x ==> TokenAt(s, x).None?
  {
    if |s| <= from then None
    else if TokenAt(s, from).Some? then Some(from)
    else FirstToken(s, from + 1)
  }

  /** `get_current_version` on the text of the setup script: the text between the quotes of the first token. */
  function GetCurrentVersion(setup: string): (r: Result<string>)
    ensures r.Ok? <==> exists i: nat :: TokenAt(setup, i).Some?
    ensures r.Ok? ==> exists i: nat :: && TokenAt(setup, i).Some?
                                  && (forall x :: 0 <= x < i ==> TokenAt(setup, x).None?)
                                  && r.value == setup[i + 9..TokenAt(setup, i).value]
    ensures r.Ok? ==> r.value != [] && forall k :: 0 <= k < |r.value| ==> !IsQuote(r.value[k])
  {
    match FirstToken(setup, 0)
    case None => Err("Could not find version in setup.py")
    case Some(i) => Ok(setup[i + 9..TokenAt(setup, i).value])
  }

  /** `re.sub` of every token from `from` on by `rep`, matches taken left to right without overlap. */
  function SubTokens(s: string, from: nat, rep: string): string
    requires from <= |s|
    decreases |s| - from
  {
    match FirstToken(s, from)
    case None => s[from..]
    case Some(i) => s[from..i] + rep + SubTokens(s, TokenAt(s, i).value + 1, rep)
  }

  /** The token pattern as a matcher: a match at `i` ends just after its closing quote. */
  function TokenMatcher(s: string): Matcher {
    (i: nat) => match TokenAt(s, i) case Some(k) => Some(k + 1) case None => None
  }

  /** `re.sub` replaces exactly the tokens `re.findall` finds: the leftmost one, then the leftmost
      one after its closing quote, and so on; the text between them is kept. */
  lemma SubTokensSplice(s: string, from: nat, rep: string)
    requires from <= |s|
    ensures exists xs :: && FindAll(TokenMatcher(s), Start, from, |s|, xs, xs)
                         && SubTokens(s, from, rep) == Spliced(s, TokenMatcher(s), from, xs, rep)
  {
    TokensFound(s, from);
    var xs :| FindAll(TokenMatcher(s), Start, from, |s|, xs, xs);
    TokensWithin(s);
    SubTokensFound(s, rep);
    SubTokensNotFound(s, rep);
    SplicedBy(s, TokenMatcher(s), rep, SubTokensRest(s, rep), from, xs);
  }

  /** The search for the token from `from` on finds a list of starts. */
  lemma {:induction false} TokensFound(s: string, from: nat)
    requires from <= |s|
    decreases |s| - from
    ensures exists xs :: FindAll(TokenMatcher(s), Start, from, |s|, xs, xs)
  {
    match FirstToken(s, from)
    case None =>
      TokensEnd(s, from);
    case Some(i) =>
      var k := TokenAt(s, i).value;
      TokenShape(s, i);
      TokensFound(s, k + 1);
      var xs :| FindAll(TokenMatcher(s), Start, k + 1, |s|, xs, xs);
      FoundCons(s, from, i, k, xs);
  }

  /** The end of `TokensFound`: no token from `from` on. */
  lemma TokensEnd(s: string, from: nat)
    requires from <= |s| && FirstToken(s, from).None?
    ensures FindAll(TokenMatcher(s), Start, from, |s|, [], [])
  {
    var m := TokenMatcher(s);
    forall x: nat | from <= x < |s|
      ensures m(x).None?
    {
      assert TokenAt(s, x).None?;
    }
  }

  /** The search from `from` finds the first token, at `i`, then goes on after its closing quote
      at `k`. */
  lemma FoundCons(s: string, from: nat, i: nat, k: nat, xs: seq<nat>)
    requires from <= |s| && FirstToken(s, from) == Some(i) && TokenAt(s, i) == Some(k)
    requires FindAll(TokenMatcher(s), Start, k + 1, |s|, xs, xs)
    ensures FindAll(TokenMatcher(s), Start, from, |s|, [i] + xs, [i] + xs)
  {
    var m, id := TokenMatcher(s), Start;
    assert m(i).Some? && NextFrom(m, i) == k + 1;
    FindAllCons(m, id, i, |s|, xs, xs);
    forall x: nat | from <= x < i
      ensures m(x).None?
    {
      assert TokenAt(s, x).None?;
    }
    FindAllSkipTo(m, id, from, i, |s|, [i] + xs, [i] + xs);
  }

  /** `re.sub` from each position on, as a function of the position. */
  function SubTokensRest(s: string, rep: string): nat -> string {
    (a: nat) => if a <= |s| then SubTokens(s, a, rep) else []
  }

  /** Every token lies within the text. */
  lemma TokensWithin(s: string)
    ensures var m := TokenMatcher(s);
            forall x: nat :: m(x).Some? ==> x < m(x).value <= |s|
  {
    var m := TokenMatcher(s);
    forall x: nat | m(x).Some?
      ensures x < m(x).value <= |s|
    {
      TokenShape(s, x);
    }
  }

  /** `re.sub` from `a` on keeps the text up to the leftmost token, puts `rep` in its place and goes
      on after its closing quote. */
  lemma SubTokensFound(s: string, rep: string)
    ensures var m, f := TokenMatcher(s), SubTokensRest(s, rep);
            forall a: nat, x: nat {:trigger LeftmostAt(m, a, x)} :: a <= |s| && LeftmostAt(m, a, x) ==> f(a) == s[a..x] + rep + f(NextFrom(m, x))
  {
    var m, f := TokenMatcher(s), SubTokensRest(s, rep);
    forall a: nat, x: nat {:trigger LeftmostAt(m, a, x)} | a <= |s| && LeftmostAt(m, a, x)
      ensures f(a) == s[a..x] + rep + f(NextFrom(m, x))
    {
      SubTokensRestAt(s, rep, a, x);
    }
  }

  /** `SubTokensAt` for `SubTokensRest`. */
  lemma SubTokensRestAt(s: string, rep: string, a: nat, x: nat)
    requires a <= |s| && LeftmostAt(TokenMatcher(s), a, x)
    ensures var f := SubTokensRest(s, rep);
            f(a) == s[a..x] + rep + f(NextFrom(TokenMatcher(s), x))
  {
    SubTokensAt(s, rep, a, x);
  }

  /** One instance of `SubTokensFound`. */
  lemma SubTokensAt(s: string, rep: string, a: nat, x: nat)
    requires a <= |s| && LeftmostAt(TokenMatcher(s), a, x)
    ensures x < |s| && TokenAt(s, x).Some? && TokenAt(s, x).value < |s|
    ensures NextFrom(TokenMatcher(s), x) == TokenAt(s, x).value + 1
    ensures SubTokens(s, a, rep) == s[a..x] + rep + SubTokens(s, TokenAt(s, x).value + 1, rep)
  {
    var k := TokenAt(s, x).value;
    LeftmostToken(s, a, x);
    SubTokensStep(s, a, x, k, rep);
  }

  /** The leftmost token a search from `a` finds is the one `re.search` finds. */
  lemma LeftmostToken(s: string, a: nat, x: nat)
    requires LeftmostAt(TokenMatcher(s), a, x)
    ensures TokenAt(s, x).Some? && FirstToken(s, a) == Some(x)
  {
    var m := TokenMatcher(s);
    forall y | a <= y < x
      ensures TokenAt(s, y).None?
    {
      assert m(y).None?;
    }
    FirstTokenAt(s, a, x);
  }

  /** `re.sub` from `a` on keeps the rest of the text when no token is left. */
  lemma SubTokensNotFound(s: string, rep: string)
    ensures var m, f := TokenMatcher(s), SubTokensRest(s, rep);
            forall a: nat {:trigger NoMatchIn(m, a, |s|)} :: a <= |s| && NoMatchIn(m, a, |s|) ==> f(a) == s[a..]
  {
    var m, f := TokenMatcher(s), SubTokensRest(s, rep);
    forall a: nat {:trigger NoMatchIn(m, a, |s|)} | a <= |s| && NoMatchIn(m, a, |s|)
      ensures f(a) == s[a..]
    {
      var r := FirstToken(s, a);
      var j: nat := if r.Some? then r.value else a;
      TokenShape(s, j);
      assert m(j).None?;
    }
  }

  /** `re.sub` from `from` on, where the first token is at `i` and closes at `k`: the text before
      it, `rep`, then `re.sub` after the closing quote. */
  lemma SubTokensStep(s: string, from: nat, i: nat, k: nat, rep: string)
    requires from <= |s| && FirstToken(s, from) == Some(i) && TokenAt(s, i) == Some(k) && k < |s|
    ensures SubTokens(s, from, rep) == s[from..i] + rep + SubTokens(s, k + 1, rep)
  {
  }

  /** `update_setup_py`: every token rewritten as `version='<new>'`; raises when the text would not change. */
  function UpdateSetupPy(setup: string, newVersion: string): (r: Result<string>)
    ensures (forall i :: TokenAt(setup, i).None?) ==> r.Err?
    ensures r.Ok? <==> SubTokens(setup, 0, "version='" + newVersion + "'") != setup
    ensures r.Ok? ==> r.value == SubTokens(setup, 0, "version='" + newVersion + "'")
    ensures r.Err? ==> r.message == "Could not update version in setup.py"
  {
    var updated := SubTokens(setup, 0, "version='" + newVersion + "'");
    if updated == setup then Err("Could not update version in setup.py") else Ok(updated)
  }

  /** A text with a single token is rewritten in that token only. */
  lemma SubTokensSingle(s: string, i: nat, rep: string)
    requires TokenAt(s, i).Some?
    requires forall x :: TokenAt(s, x).Some? ==> x == i
    ensures SubTokens(s, 0, rep) == s[..i] + rep + s[TokenAt(s, i).value + 1..]
  {
    var k := TokenAt(s, i).value;
    assert FirstToken(s, 0) == Some(i);
    assert FirstToken(s, k + 1).None?;
  }

  /** The first closing quote depends only on the text up to a quote both texts have. */
  lemma {:induction false} QuoteFromAgree(s: string, t: string, x: nat, m: nat)
    requires x <= m < |s| && m < |t| && s[..m] == t[..m]
    requires IsQuote(s[m]) && IsQuote(t[m])
    decreases m - x
    ensures QuoteFrom(s, x) == QuoteFrom(t, x) <= m
  {
    if x < m {
      assert s[x] == s[..m][x] && t[x] == t[..m][x];
      if !IsQuote(s[x]) {
        QuoteFromAgree(s, t, x + 1, m);
      }
    }
  }

  /** A token starting before position `m - 8` is read the same way in two texts that agree
      before `m` and both hold a quote at `m`. */
  lemma TokenAtAgree(s: string, t: string, x: nat, m: nat)
    requires x + 8 < m < |s| && m < |t| && s[..m] == t[..m]
    requires IsQuote(s[m]) && IsQuote(t[m])
    ensures TokenAt(s, x) == TokenAt(t, x)
  {
    OccursAtAgree(s, t, "version=", x, m);
    assert s[x + 8] == s[..m][x + 8] && t[x + 8] == t[..m][x + 8];
    QuoteFromAgree(s, t, x + 9, m);
  }

  /** The search for the token from `from` on stops at the first start that matches. */
  lemma {:induction false} FirstTokenAt(s: string, from: nat, i: nat)
    requires from <= i && TokenAt(s, i).Some?
    requires forall x :: from <= x < i ==> TokenAt(s, x).None?
    decreases i - from
    ensures FirstToken(s, from) == Some(i)
  {
    if from < i {
      FirstTokenAt(s, from + 1, i);
    }
  }

  /** The pieces of a `version='…'` token written at `i`. */
  lemma QuotedSlices(r: string, i: nat, v: string)
    requires i + 10 + |v| <= |r| && r[i..i + 10 + |v|] == "version='" + v + "'"
    ensures r[i..i + 8] == "version=" && r[i + 8] == '\''
    ensures r[i + 9..i + 9 + |v|] == v && r[i + 9 + |v|] == '\''
  {
    var w := r[i..i + 10 + |v|];
    assert r[i..i + 8] == w[..8];
    assert r[i + 8] == w[8];
    assert w[9..9 + |v|] == v;
    forall k | 0 <= k < |v|
      ensures r[i + 9..i + 9 + |v|][k] == v[k]
    {
      assert r[i + 9 + k] == w[9 + k];
    }
    assert r[i + 9 + |v|] == w[9 + |v|];
  }

  /** A quoted non-empty, quote-free version at `i` reads as a token closing after it. */
  lemma WrittenToken(r: string, i: nat, v: string)
    requires v != [] && forall k :: 0 <= k < |v| ==> !IsQuote(v[k])
    requires i + 10 + |v| <= |r|
    requires r[i..i + 8] == "version=" && r[i + 8] == '\''
    requires r[i + 9..i + 9 + |v|] == v && r[i + 9 + |v|] == '\''
    ensures TokenAt(r, i) == Some(i + 9 + |v|)
  {
    var end := i + 9 + |v|;
    forall y | i + 9 <= y < end
      ensures !IsQuote(r[y])
    {
      assert r[y] == r[i + 9..end][y - (i + 9)];
    }
    assert QuoteFrom(r, i + 9) == end;
  }

  /** A text that agrees with the setup script up to its first token start `i` and holds
      `version='` at `i` has no token starting before `i` either. */
  lemma NoTokenBefore(setup: string, r: string, i: nat)
    requires TokenAt(setup, i).Some? && i + 9 <= |r|
    requires forall x :: 0 <= x < i ==> TokenAt(setup, x).None?
    requires r[..i] == setup[..i] && r[i..i + 8] == "version=" && r[i + 8] == '\''
    ensures forall x :: 0 <= x < i ==> TokenAt(r, x).None?
  {
    var m := i + 8;
    assert setup[i..m] == "version=";
    assert r[..m] == setup[..m] by {
      assert r[..m] == r[..i] + r[i..m];
      assert setup[..m] == setup[..i] + setup[i..m];
    }
    forall x | 0 <= x < i
      ensures TokenAt(r, x).None?
    {
      TokenAtAgree(setup, r, x, m);
    }
  }

  /** The rewrite keeps the text before the first token and writes `rep` in its place. */
  lemma SubTokensFirst(setup: string, i: nat, rep: string)
    requires FirstToken(setup, 0) == Some(i)
    ensures SubTokens(setup, 0, rep) == setup[..i] + rep + SubTokens(setup, TokenAt(setup, i).value + 1, rep)
  {
  }

  /** The version read from a text whose first token starts at `i` and holds `v`. */
  lemma ReadBack(r: string, i: nat, v: string)
    requires FirstToken(r, 0) == Some(i) && TokenAt(r, i) == Some(i + 9 + |v|)
    requires r[i + 9..i + 9 + |v|] == v
    ensures GetCurrentVersion(r) == Ok(v)
  {
  }

  /** A text that agrees with the setup script before its first token and holds a quoted
      version in that token's place reads back that version. */
  lemma WrittenReadsBack(setup: string, r: string, i: nat, v: string)
    requires FirstToken(setup, 0) == Some(i)
    requires v != [] && forall k :: 0 <= k < |v| ==> !IsQuote(v[k])
    requires i + 10 + |v| <= |r| && r[..i] == setup[..i] && r[i..i + 10 + |v|] == "version='" + v + "'"
    ensures GetCurrentVersion(r) == Ok(v)
  {
    QuotedSlices(r, i, v);
    WrittenToken(r, i, v);
    NoTokenBefore(setup, r, i);
    FirstTokenAt(r, 0, i);
    ReadBack(r, i, v);
  }

  /** Reading back a rewritten setup script gives the new version, as long as that version is
      non-empty and holds no quote character. */
  lemma UpdateThenRead(setup: string, newVersion: string)
    requires exists i :: TokenAt(setup, i).Some?
    requires newVersion != [] && forall k :: 0 <= k < |newVersion| ==> !IsQuote(newVersion[k])
    ensures GetCurrentVersion(SubTokens(setup, 0, "version='" + newVersion + "'")) == Ok(newVersion)
  {
    var rep := "version='" + newVersion + "'";
    var i := FirstToken(setup, 0).value;
    var tail := SubTokens(setup, TokenAt(setup, i).value + 1, rep);
    SubTokensFirst(setup, i, rep);
    JoinSlices(setup[..i], rep, tail);
    WrittenReadsBack(setup, SubTokens(setup, 0, rep), i, newVersion);
  }

  /** `bump_version`: read the current version from the setup script, parse it, bump it, format it.
      The errors surface in that order. */
  function BumpVersion(setup: string, kind: string): (r: Result<string>)
    ensures r.Ok? <==> && GetCurrentVersion(setup).Ok?
                       && ParseVersion(GetCurrentVersion(setup).value).Ok?
                       && (kind == "major" || kind == "minor" || kind == "patch")
    ensures GetCurrentVersion(setup).Err? ==> r == Err(GetCurrentVersion(setup).message)
  {
    match GetCurrentVersion(setup)
    case Err(e) => Err(e)
    case Ok(current) =>
      match ParseVersion(current)
      case Err(e) => Err(e)
      case Ok(v) =>
        match Bump(v, kind)
        case Err(e) => Err(e)
        case Ok(next) => Ok(FormatVersion(next))
  }

  /** A successful bump yields the version the bump rules give for the current one. */
  lemma BumpVersionValue(setup: string, kind: string)
    requires BumpVersion(setup, kind).Ok?
    ensures ParseVersion(BumpVersion(setup, kind).value)
            == Bump(ParseVersion(GetCurrentVersion(setup).value).value, kind)
  {
    var v := ParseVersion(GetCurrentVersion(setup).value).value;
    FormatParseRoundTrip(Bump(v, kind).value);
  }

  /** A successful bump yields a well-formed version strictly greater than the current one. */
  lemma BumpVersionIncreases(setup: string, kind: string)
    requires BumpVersion(setup, kind).Ok?
    ensures ParseVersion(GetCurrentVersion(setup).value).Ok?
    ensures ParseVersion(BumpVersion(setup, kind).value).Ok?
    ensures Less(ParseVersion(GetCurrentVersion(setup).value).value,
                 ParseVersion(BumpVersion(setup, kind).value).value)
  {
    var v := ParseVersion(GetCurrentVersion(setup).value).value;
    FormatParseRoundTrip(Bump(v, kind).value);
  }

  /** A formatted version is a non-empty text with no quote in it. */
  lemma FormattedUnquoted(v: Version, s: string)
    requires s == FormatVersion(v)
    ensures s != [] && forall k :: 0 <= k < |s| ==> !IsQuote(s[k])
  {
    forall k | 0 <= k < |s|
      ensures !IsQuote(s[k])
    {
      assert IsDigit(s[k]) || s[k] == '.';
    }
  }

  /** A successful bump yields a version other than the current one, made of digits and dots. */
  lemma BumpedIsNew(setup: string, kind: string, next: string)
    requires BumpVersion(setup, kind) == Ok(next)
    ensures GetCurrentVersion(setup).Ok? && GetCurrentVersion(setup).value != next
    ensures next != [] && forall k :: 0 <= k < |next| ==> !IsQuote(next[k])
  {
    var current := GetCurrentVersion(setup).value;
    FormattedUnquoted(Bump(ParseVersion(current).value, kind).value, next);
    BumpVersionIncreases(setup, kind);
    assert next != current by {
      assert ParseVersion(next).value != ParseVersion(current).value;
    }
  }

  /** Writing a version other than the current one into the setup script succeeds, and the script
      then reads back the version written. */
  lemma WriteNewVersion(setup: string, current: string, next: string)
    requires GetCurrentVersion(setup) == Ok(current) && next != current
    requires next != [] && forall k :: 0 <= k < |next| ==> !IsQuote(next[k])
    ensures UpdateSetupPy(setup, next) == Ok(SubTokens(setup, 0, "version='" + next + "'"))
    ensures GetCurrentVersion(SubTokens(setup, 0, "version='" + next + "'")) == Ok(next)
  {
    UpdateThenRead(setup, next);
  }

  /** Once a bump succeeded, writing the new version into the setup script succeeds too, and
      the script then reads back the new version. */
  lemma UpdateAfterBump(setup: string, kind: string)
    requires BumpVersion(setup, kind).Ok?
    ensures UpdateSetupPy(setup, BumpVersion(setup, kind).value).Ok?
    ensures GetCurrentVersion(UpdateSetupPy(setup, BumpVersion(setup, kind).value).value)
            == BumpVersion(setup, kind)
  {
    var next := BumpVersion(setup, kind).value;
    BumpedIsNew(setup, kind, next);
    WriteNewVersion(setup, GetCurrentVersion(setup).value, next);
  }
}
