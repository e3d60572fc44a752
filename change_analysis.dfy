/** The version manager's change classifier: the entries of the Unreleased block are sorted into
    breaking / features / fixes / other buckets, a bump kind is suggested from the buckets, and the
    `bump` command applies the suggested or the requested kind to the setup script. */
module ChangeAnalysis {
  import opened Text
  import opened Results
  import opened Versions
  import opened Scan

  // ---------------------------------------------------------------- scanning the Unreleased block

  /** `body` is what the Unreleased pattern captures when the first Unreleased heading is at `p`:
      it follows the heading and runs up to the next `## [` or the end of the document. */
  ghost predicate BodyAt(content: string, p: nat, body: string) {
    && OccursAt(content, UnreleasedHeading, p)
    && (forall x :: 0 <= x < p ==> !OccursAt(content, UnreleasedHeading, x))
    && p + 15 + |body| <= |content|
    && content[p + 15..p + 15 + |body|] == body
    && (forall x :: p + 15 <= x < p + 15 + |body| ==> !OccursAt(content, "## [", x))
    && (p + 15 + |body| == |content| || OccursAt(content, "## [", p + 15 + |body|))
  }

  /** What `## \[Unreleased\](.*?)(?=## \[|\Z)` captures: the text after the first Unreleased heading,
      up to the next `## [` or the end of the document. */
  function UnreleasedBody(content: string): (r: Option<string>)
    ensures r.None? <==> !Contains(content, UnreleasedHeading)
    ensures r.Some? ==> exists p: nat :: BodyAt(content, p, r.value)
  {
    var p := FindFrom(content, UnreleasedHeading, 0);
    if p < 0 then None
    else
      var q := FindOrEnd(content, "## [", p + |UnreleasedHeading|);
      assert BodyAt(content, p, content[p + 15..q]);
      Some(content[p + |UnreleasedHeading|..q])
  }

  /** `re.findall(opener + "(.*?)(?=\n### |\Z)", u, re.DOTALL)`, searching from `from` on: for each
      match, the text after the opener up to the next `\n### ` or the end of the block; the next
      match is searched from there. An opener inside a body (right after another opener, say) is
      part of that body, not the start of another one. */
  function SubsectionBodies(u: string, opener: string, from: nat): (r: seq<string>)
    requires from <= |u| && opener != []
    decreases |u| - from
    ensures r == [] <==> forall i :: from <= i ==> !OccursAt(u, opener, i)
    ensures forall k :: 0 <= k < |r| ==> !Contains(r[k], "\n### ")
  {
    var i := FindFrom(u, opener, from);
    if i < 0 then []
    else
      var start := i + |opener|;
      var q := FindOrEnd(u, "\n### ", start);
      AbsentFromSlice(u, "\n### ", start, q);
      [u[start..q]] + SubsectionBodies(u, opener, q)
  }

  /** `re.findall(r"^- (.+)$", body, re.MULTILINE)` over the lines from index `start` (a line start) on:
      for each line that begins with `- ` and has at least one more character, the rest of the line. */
  function ItemsFrom(body: string, start: nat): (r: seq<string>)
    requires start <= |body|
    decreases |body| - start
    ensures forall k :: 0 <= k < |r| ==> r[k] != [] && '\n' !in r[k]
  {
    var e := FindOrEnd(body, "\n", start);
    var line := body[start..e];
    NoNewlineBefore(body, start, e);
    var here := if |line| > 2 && line[..2] == "- " then [line[2..]] else [];
    if e == |body| then here else here + ItemsFrom(body, e + 1)
  }

  /** A stretch of text with no occurrence of "\n" holds no newline character. */
  lemma NoNewlineBefore(body: string, start: nat, e: nat)
    requires start <= e <= |body|
    requires forall i :: start <= i < e ==> !OccursAt(body, "\n", i)
    ensures '\n' !in body[start..e]
  {
    forall x | start <= x < e
      ensures body[x] != '\n'
    {
      assert !OccursAt(body, "\n", x);
      assert body[x..x + 1] == [body[x]];
    }
  }

  function Items(body: string): seq<string> {
    ItemsFrom(body, 0)
  }

  /** `s` begins a line of `body` when the lines are read from `start`: it is `start` itself or
      follows a newline. */
  ghost predicate LineStart(body: string, start: nat, s: nat) {
    s == start || (start < s <= |body| && body[s - 1] == '\n')
  }

  /** The line of `body` that begins at `s` is `- ` followed by the item `x`, which runs up to the
      next newline or the end: `^- (.+)$` matches there. */
  ghost predicate ItemLineAt(body: string, s: nat, x: string) {
    && s <= |body|
    && var e := FindOrEnd(body, "\n", s);
       && s + 2 < e && body[s..s + 2] == "- " && x == body[s + 2..e]
  }

  /** Every item `findall` returns comes from a line of the form `- x`. */
  lemma {:induction false} ItemsFromSound(body: string, start: nat, x: string)
    requires start <= |body| && x in ItemsFrom(body, start)
    decreases |body| - start, 1
    ensures exists s: nat :: LineStart(body, start, s) && ItemLineAt(body, s, x)
  {
    ItemsFromCases(body, start, x);
    if ItemLineAt(body, start, x) {
      assert LineStart(body, start, start);
    } else {
      LaterItemSound(body, start, x);
    }
  }

  /** An item of the lines after the first one comes from one of those lines. */
  lemma {:induction false} LaterItemSound(body: string, start: nat, x: string)
    requires start <= |body| && FindOrEnd(body, "\n", start) < |body|
    requires x in ItemsFrom(body, FindOrEnd(body, "\n", start) + 1)
    decreases |body| - start, 0
    ensures exists s: nat :: LineStart(body, start, s) && ItemLineAt(body, s, x)
  {
    var e := FindOrEnd(body, "\n", start);
    ItemsFromSound(body, e + 1, x);
    var s: nat :| LineStart(body, e + 1, s) && ItemLineAt(body, s, x);
    NewlineEndsLine(body, start);
    assert LineStart(body, start, s);
  }

  /** Every line of the form `- x` gives the item `x`. */
  lemma {:induction false} ItemsFromComplete(body: string, start: nat, s: nat, x: string)
    requires start <= s <= |body| && LineStart(body, start, s) && ItemLineAt(body, s, x)
    decreases s - start, 1
    ensures x in ItemsFrom(body, start)
  {
    if s == start {
      ItemHere(body, start, x);
    } else {
      LineBeforeStart(body, start, s);
      LaterItemComplete(body, start, s, x);
      ItemLater(body, start, x);
    }
  }

  /** A line `- x` after the first line gives an item of the lines after the first. */
  lemma {:induction false} LaterItemComplete(body: string, start: nat, s: nat, x: string)
    requires start < s <= |body| && body[s - 1] == '\n' && ItemLineAt(body, s, x)
    requires FindOrEnd(body, "\n", start) < s
    decreases s - start, 0
    ensures x in ItemsFrom(body, FindOrEnd(body, "\n", start) + 1)
  {
    ItemsFromComplete(body, FindOrEnd(body, "\n", start) + 1, s, x);
  }

  /** An item of the lines from `start` is the item of the first line or one of the later lines. */
  lemma ItemsFromCases(body: string, start: nat, x: string)
    requires start <= |body| && x in ItemsFrom(body, start)
    ensures || ItemLineAt(body, start, x)
            || (FindOrEnd(body, "\n", start) < |body| && x in ItemsFrom(body, FindOrEnd(body, "\n", start) + 1))
  {
    var e := FindOrEnd(body, "\n", start);
    var line := body[start..e];
    var here := if |line| > 2 && line[..2] == "- " then [line[2..]] else [];
    assert ItemsFrom(body, start) == if e == |body| then here else here + ItemsFrom(body, e + 1);
    if x in here {
      assert body[start..start + 2] == line[..2] && x == body[start + 2..e];
    }
  }

  /** The item of the line at `start` is among the items from `start`. */
  lemma ItemHere(body: string, start: nat, x: string)
    requires start <= |body| && ItemLineAt(body, start, x)
    ensures x in ItemsFrom(body, start)
  {
    var e := FindOrEnd(body, "\n", start);
    var line := body[start..e];
    assert line[..2] == body[start..start + 2] && line[2..] == x;
  }

  /** An item of the lines after the first one is among the items from `start`. */
  lemma ItemLater(body: string, start: nat, x: string)
    requires start <= |body| && FindOrEnd(body, "\n", start) < |body|
    requires x in ItemsFrom(body, FindOrEnd(body, "\n", start) + 1)
    ensures x in ItemsFrom(body, start)
  {
  }

  /** The line that begins at `start` ends with a newline, when it ends before the text does. */
  lemma NewlineEndsLine(body: string, start: nat)
    requires start <= |body| && FindOrEnd(body, "\n", start) < |body|
    ensures body[FindOrEnd(body, "\n", start)] == '\n'
  {
    var e := FindOrEnd(body, "\n", start);
    assert body[e..e + 1] == "\n";
  }

  /** A line start after `start` lies beyond the end of the line at `start`. */
  lemma LineBeforeStart(body: string, start: nat, s: nat)
    requires start < s <= |body| && body[s - 1] == '\n'
    ensures FindOrEnd(body, "\n", start) < s
  {
    assert OccursAt(body, "\n", s - 1) by {
      assert body[s - 1..s] == [body[s - 1]];
    }
  }

  /** Where the body of a subsection whose opener starts at `s` ends: at the next `\n### ` after
      the opener, or at the end of the block. */
  function BodyEnd(u: string, opener: string, s: nat): nat {
    if s + |opener| <= |u| then FindOrEnd(u, "\n### ", s + |opener|) else |u|
  }

  /** The body of a subsection whose opener starts at `s`: from the end of the opener to the
      next `\n### ` or the end of the block. */
  function BodyAfter(u: string, opener: string, s: nat): string {
    if s + |opener| <= |u| then u[s + |opener|..BodyEnd(u, opener, s)] else []
  }

  /** The subsection pattern as a matcher: a match at `s` is the opener and its body. */
  function OpenerMatcher(u: string, opener: string): Matcher {
    (s: nat) => if OccursAt(u, opener, s) then Some(BodyEnd(u, opener, s)) else None
  }

  function BodyOf(u: string, opener: string): nat -> string {
    (s: nat) => BodyAfter(u, opener, s)
  }

  /** The bodies `SubsectionBodies` returns are what `findall` of the subsection pattern returns:
      the leftmost opener, its body up to the next `\n### ` or the end, then the leftmost opener
      after that body, and so on, with no opener after the last body. */
  lemma {:induction false} SubsectionBodiesMatch(u: string, opener: string, from: nat)
    requires from <= |u| && opener != []
    decreases |u| - from
    ensures exists ss :: FindAll(OpenerMatcher(u, opener), BodyOf(u, opener), from, |u|, ss, SubsectionBodies(u, opener, from))
  {
    var i := FindFrom(u, opener, from);
    if i < 0 {
      SubsectionScanEnd(u, opener, from);
    } else {
      var q := BodyEnd(u, opener, i);
      SubsectionBodiesMatch(u, opener, q);
      var ss :| FindAll(OpenerMatcher(u, opener), BodyOf(u, opener), q, |u|, ss, SubsectionBodies(u, opener, q));
      SubsectionScanCons(u, opener, from, ss, SubsectionBodies(u, opener, q));
      SubsectionStep(u, opener, from);
    }
  }

  /** The scan from a position with no opener after it finds nothing. */
  lemma SubsectionScanEnd(u: string, opener: string, from: nat)
    requires from <= |u| && opener != [] && FindFrom(u, opener, from) < 0
    ensures FindAll(OpenerMatcher(u, opener), BodyOf(u, opener), from, |u|, [], SubsectionBodies(u, opener, from))
  {
    var m := OpenerMatcher(u, opener);
    SubsectionStep(u, opener, from);
    forall s: nat | from <= s < |u|
      ensures m(s).None?
    {
      assert !OccursAt(u, opener, s);
    }
  }

  /** The scan from `from`: the leftmost opener, then the scan after its body. */
  lemma SubsectionScanCons(u: string, opener: string, from: nat, ss: seq<nat>, r: seq<string>)
    requires from <= |u| && opener != [] && FindFrom(u, opener, from) >= 0
    requires FindAll(OpenerMatcher(u, opener), BodyOf(u, opener), BodyEnd(u, opener, FindFrom(u, opener, from)), |u|, ss, r)
    ensures FindAll(OpenerMatcher(u, opener), BodyOf(u, opener), from, |u|, [FindFrom(u, opener, from)] + ss,
                    [BodyOf(u, opener)(FindFrom(u, opener, from))] + r)
  {
    var m, v := OpenerMatcher(u, opener), BodyOf(u, opener);
    var i := FindFrom(u, opener, from);
    assert m(i).Some? && NextFrom(m, i) == BodyEnd(u, opener, i);
    FindAllCons(m, v, i, |u|, ss, r);
    forall s: nat | from <= s < i
      ensures m(s).None?
    {
      assert !OccursAt(u, opener, s);
    }
    FindAllSkipTo(m, v, from, i, |u|, [i] + ss, [v(i)] + r);
  }

  /** One step of `SubsectionBodies`. */
  lemma SubsectionStep(u: string, opener: string, from: nat)
    requires from <= |u| && opener != []
    ensures var i := FindFrom(u, opener, from);
            SubsectionBodies(u, opener, from)
              == if i < 0 then [] else [BodyOf(u, opener)(i)] + SubsectionBodies(u, opener, BodyEnd(u, opener, i))
  {
  }

  /** An item written on the line right after the first `### <heading>` opener of the block is
      one of the items of that heading. */
  lemma FirstSubsectionItem(u: string, heading: string, x: string)
    requires FindFrom(u, Opener(heading), 0) >= 0
    requires ItemLineAt(u, FindFrom(u, Opener(heading), 0) + |Opener(heading)|, x)
    ensures x in ItemsUnder(u, heading)
  {
    var o := Opener(heading);
    FirstBodyItem(u, o, x);
    ItemsOfMember(SubsectionBodies(u, o, 0), 0, x);
  }

  /** An item line right after the first opener is an item of the first body. */
  lemma FirstBodyItem(u: string, o: string, x: string)
    requires o != [] && FindFrom(u, o, 0) >= 0 && ItemLineAt(u, FindFrom(u, o, 0) + |o|, x)
    ensures SubsectionBodies(u, o, 0) != [] && x in Items(SubsectionBodies(u, o, 0)[0])
  {
    FirstBody(u, o);
    ItemAfterOpener(u, o, x);
  }

  /** An item line right after the first opener is an item of the body after that opener. */
  lemma ItemAfterOpener(u: string, o: string, x: string)
    requires FindFrom(u, o, 0) >= 0 && ItemLineAt(u, FindFrom(u, o, 0) + |o|, x)
    ensures x in Items(BodyAfter(u, o, FindFrom(u, o, 0)))
  {
    var t := FindFrom(u, o, 0) + |o|;
    var q := FindOrEnd(u, "\n### ", t);
    assert BodyAfter(u, o, FindFrom(u, o, 0)) == u[t..q];
    ItemLineInBody(u, t, q, x);
    ItemsFromComplete(u[t..q], 0, 0, x);
  }

  /** The first body `findall` returns is the one after the first opener. */
  lemma FirstBody(u: string, opener: string)
    requires opener != [] && FindFrom(u, opener, 0) >= 0
    ensures SubsectionBodies(u, opener, 0) != []
    ensures SubsectionBodies(u, opener, 0)[0] == BodyAfter(u, opener, FindFrom(u, opener, 0))
  {
    var r := SubsectionBodies(u, opener, 0);
    var m, v := OpenerMatcher(u, opener), BodyOf(u, opener);
    SubsectionBodiesMatch(u, opener, 0);
    var ss :| FindAll(m, v, 0, |u|, ss, r);
    assert r[0] == v(ss[0]);
    assert LeftmostAt(m, ResumeAt(m, 0, ss, 0), ss[0]);
    forall j | 0 <= j < ss[0]
      ensures !OccursAt(u, opener, j)
    {
      assert m(j).None?;
    }
    FindFromAt(u, opener, 0, ss[0]);
  }

  /** An item of one body is an item of the bodies. */
  lemma ItemsOfMember(bodies: seq<string>, k: nat, x: string)
    requires k < |bodies| && x in Items(bodies[k])
    ensures x in ItemsOf(bodies)
  {
    assert ItemLists(bodies)[k] == Items(bodies[k]);
    ConcatMember(ItemLists(bodies), k, x);
  }

  /** A line `- x` right after the first `### Removed` opener of the Unreleased block makes `x` a
      breaking change. */
  lemma RemovedItemIsBreaking(u: string, x: string)
    requires FindFrom(u, Opener("Removed"), 0) >= 0
    requires ItemLineAt(u, FindFrom(u, Opener("Removed"), 0) + |Opener("Removed")|, x)
    ensures x in Classify(u).breaking
  {
    FirstSubsectionItem(u, "Removed", x);
    ClassifyPlacement(u, x);
  }

  /** An item line at the start of a body ends inside that body, so it is also the first line of
      the body. */
  lemma ItemLineInBody(u: string, t: nat, q: nat, x: string)
    requires t <= |u| && q == FindOrEnd(u, "\n### ", t) && ItemLineAt(u, t, x)
    ensures ItemLineAt(u[t..q], 0, x)
  {
    var e := FindOrEnd(u, "\n", t);
    if q < |u| {
      OccursPrefix(u, "\n### ", 1, q);
      assert "\n### "[..1] == "\n";
    }
    assert e <= q;
    FindOrEndInSlice(u, "\n", t, q, t);
    assert u[t..q][0..2] == u[t..t + 2] && u[t..q][2..e - t] == u[t + 2..e];
  }

  /** A member of one of the lists is a member of their concatenation. */
  lemma {:induction false} ConcatMember<T>(lists: seq<seq<T>>, m: nat, x: T)
    requires m < |lists| && x in lists[m]
    ensures x in Concat(lists)
  {
    var n := |lists| - 1;
    if m < n {
      assert lists[..n][m] == lists[m];
      ConcatMember(lists[..n], m, x);
    }
  }

  /** The item lists of several subsection bodies, one list per body. */
  function ItemLists(bodies: seq<string>): (r: seq<seq<string>>)
    ensures |r| == |bodies|
  {
    seq(|bodies|, k requires 0 <= k < |bodies| => Items(bodies[k]))
  }

  /** The lists, one after the other. */
  function Concat<T>(lists: seq<seq<T>>): seq<T> {
    if lists == [] then [] else Concat(lists[..|lists| - 1]) + lists[|lists| - 1]
  }

  /** The items of several subsection bodies, in order. */
  function ItemsOf(bodies: seq<string>): seq<string> {
    Concat(ItemLists(bodies))
  }

  /** The line that opens a `### <heading>` subsection. */
  function Opener(heading: string): string {
    "### " + heading + "\n"
  }

  /** The items of every `### <heading>` subsection of the block `u`, in order. */
  function ItemsUnder(u: string, heading: string): seq<string> {
    ItemsOf(SubsectionBodies(u, Opener(heading), 0))
  }

  // ---------------------------------------------------------------- classification

  /** A `### Changed` item whose lower-cased text mentions one of the four warning words. */
  predicate MentionsBreaking(item: string) {
    var text := Lower(item);
    Contains(text, "breaking") || Contains(text, "incompatible")
    || Contains(text, "removed") || Contains(text, "deprecated")
  }

  predicate Unflagged(item: string) {
    !MentionsBreaking(item)
  }

  /** The items `keep` holds of, in order. */
  function Filter<T>(items: seq<T>, keep: T -> bool): seq<T> {
    if items == [] then []
    else
      var last := items[|items| - 1];
      Filter(items[..|items| - 1], keep) + (if keep(last) then [last] else [])
  }

  /** The Changed items that mention a warning word, in order. */
  function Breaking(items: seq<string>): seq<string> {
    Filter(items, MentionsBreaking)
  }

  /** The Changed items that mention none of the warning words, in order. */
  function NotBreaking(items: seq<string>): seq<string> {
    Filter(items, Unflagged)
  }

  /** The four buckets of `analyze_unreleased_changes`. */
  datatype Changes = Changes(breaking: seq<string>, features: seq<string>, fixes: seq<string>, other: seq<string>)
  {
    predicate IsEmpty() {
      breaking == [] && features == [] && fixes == [] && other == []
    }
  }

  /** The buckets of an Unreleased block: Removed items and warning-worded Changed items are breaking,
      the other Changed items are other, Added items are features, Fixed and Security items are fixes.
      Deprecated subsections are not read. */
  function Classify(u: string): Changes {
    var changed := ItemsUnder(u, "Changed");
    Changes(ItemsUnder(u, "Removed") + Breaking(changed),
            ItemsUnder(u, "Added"),
            ItemsUnder(u, "Fixed") + ItemsUnder(u, "Security"),
            NotBreaking(changed))
  }

  /** The analysis of a changelog that may be missing: `None` stands for the empty dictionary returned
      when there is no file or no Unreleased heading. */
  function Analysis(changelog: Option<string>): Option<Changes> {
    if changelog.None? then None
    else
      match UnreleasedBody(changelog.value)
      case None => None
      case Some(u) => Some(Classify(u))
  }

  /** One more list comes after the lists before it. */
  lemma ConcatSnoc<T>(lists: seq<seq<T>>, m: nat)
    requires m < |lists|
    ensures Concat(lists[..m + 1]) == Concat(lists[..m]) + lists[m]
  {
    assert lists[..m + 1][..m] == lists[..m];
  }

  /** One more item is kept, at the end, exactly when `keep` holds of it. */
  lemma FilterSnoc<T>(items: seq<T>, x: T, keep: T -> bool)
    ensures Filter(items + [x], keep) == Filter(items, keep) + (if keep(x) then [x] else [])
  {
    assert (items + [x])[..|items|] == items;
  }

  /** Filtering a concatenation filters each part. */
  lemma {:induction false} FilterAppend<T>(xs: seq<T>, ys: seq<T>, keep: T -> bool)
    ensures Filter(xs + ys, keep) == Filter(xs, keep) + Filter(ys, keep)
  {
    if ys == [] {
      assert xs + ys == xs;
    } else {
      var front, last := ys[..|ys| - 1], ys[|ys| - 1];
      var tail := if keep(last) then [last] else [];
      FilterAppend(xs, front, keep);
      assert xs + ys == (xs + front) + [last];
      assert ys == front + [last];
      FilterSnoc(xs + front, last, keep);
      FilterSnoc(front, last, keep);
      calc {
        Filter(xs + ys, keep);
        Filter(xs + front, keep) + tail;
        (Filter(xs, keep) + Filter(front, keep)) + tail;
        Filter(xs, keep) + (Filter(front, keep) + tail);
        Filter(xs, keep) + Filter(ys, keep);
      }
    }
  }

  /** The kept items are exactly the items `keep` holds of. */
  lemma {:induction false} FilterMembers<T>(items: seq<T>, keep: T -> bool)
    ensures forall x :: x in Filter(items, keep) <==> x in items && keep(x)
  {
    if items != [] {
      var front, last := items[..|items| - 1], items[|items| - 1];
      FilterMembers(front, keep);
      assert items == front + [last];
    }
  }

  /** When `keep` holds of every item, nothing is dropped. */
  lemma {:induction false} FilterAll<T>(items: seq<T>, keep: T -> bool)
    requires forall x :: x in items ==> keep(x)
    ensures Filter(items, keep) == items
  {
    if items != [] {
      var front, last := items[..|items| - 1], items[|items| - 1];
      assert items == front + [last];
      FilterAll(front, keep);
    }
  }

  /** Appends each list to `acc` in turn, as the `extend` loops of the analysis do. */
  method ExtendWithAll(acc: seq<string>, lists: seq<seq<string>>) returns (r: seq<string>)
    ensures r == acc + Concat(lists)
  {
    r := acc;
    for m := 0 to |lists|
      invariant r == acc + Concat(lists[..m])
    {
      ConcatSnoc(lists, m);
      r := r + lists[m];
    }
    assert lists[..|lists|] == lists;
  }

  /** The inner loop over the items of one Changed subsection: each item goes to the end of the
      breaking list or of the other list. */
  method SortChangedItems(items: seq<string>, breaking: seq<string>, other: seq<string>)
    returns (breaking': seq<string>, other': seq<string>)
    ensures breaking' == breaking + Breaking(items)
    ensures other' == other + NotBreaking(items)
  {
    breaking', other' := breaking, other;
    for j := 0 to |items|
      invariant breaking' == breaking + Breaking(items[..j])
      invariant other' == other + NotBreaking(items[..j])
    {
      var item := items[j];
      assert items[..j + 1] == items[..j] + [item];
      FilterSnoc(items[..j], item, MentionsBreaking);
      FilterSnoc(items[..j], item, Unflagged);
      if MentionsBreaking(item) {
        breaking' := breaking' + [item];
      } else {
        other' := other' + [item];
      }
    }
    assert items[..|items|] == items;
  }

  /** `analyze_unreleased_changes`, on the changelog text (`None` when the file does not exist). */
  method AnalyzeUnreleasedChanges(changelog: Option<string>) returns (r: Option<Changes>)
    ensures r == Analysis(changelog)
  {
    if changelog.None? {
      return None;
    }
    var body := UnreleasedBody(changelog.value);
    if body.None? {
      return None;
    }
    var changes := AnalyzeBlock(body.value);
    r := Some(changes);
  }

  /** The loop over the `### Changed` subsections, given the item list of each: their items, in
      order, go to the end of the breaking list or to the other list. */
  method SortChangedSubsections(lists: seq<seq<string>>, breaking: seq<string>)
    returns (breaking': seq<string>, other: seq<string>)
    ensures breaking' == breaking + Breaking(Concat(lists))
    ensures other == NotBreaking(Concat(lists))
  {
    breaking', other := breaking, [];
    for m := 0 to |lists|
      invariant breaking' == breaking + Breaking(Concat(lists[..m]))
      invariant other == NotBreaking(Concat(lists[..m]))
    {
      var seen, items := Concat(lists[..m]), lists[m];
      ConcatSnoc(lists, m);
      FilterAppend(seen, items, MentionsBreaking);
      FilterAppend(seen, items, Unflagged);
      breaking', other := SortChangedItems(items, breaking', other);
    }
    assert lists[..|lists|] == lists;
  }

  /** The body of `analyze_unreleased_changes` once the Unreleased block `u` has been captured. */
  method AnalyzeBlock(u: string) returns (c: Changes)
    ensures c == Classify(u)
  {
    // Removed: every item is breaking
    var breaking := ExtendWithAll([], ItemLists(SubsectionBodies(u, Opener("Removed"), 0)));
    assert breaking == ItemsUnder(u, "Removed");
    // Changed: breaking when worded so, other otherwise
    var other;
    breaking, other := SortChangedSubsections(ItemLists(SubsectionBodies(u, Opener("Changed"), 0)), breaking);
    // Added: features; Fixed and Security: fixes
    var features := ExtendWithAll([], ItemLists(SubsectionBodies(u, Opener("Added"), 0)));
    var fixes := ExtendWithAll([], ItemLists(SubsectionBodies(u, Opener("Fixed"), 0)));
    assert fixes == ItemsUnder(u, "Fixed");
    fixes := ExtendWithAll(fixes, ItemLists(SubsectionBodies(u, Opener("Security"), 0)));
    c := Changes(breaking, features, fixes, other);
  }

  // ---------------------------------------------------------------- suggestion

  /** The bump kinds `suggest_version_bump` returns. */
  datatype Suggestion = NoBump | Major | Minor | Patch
  {
    function Kind(): string {
      match this
      case NoBump => "none"
      case Major => "major"
      case Minor => "minor"
      case Patch => "patch"
    }
  }

  /** `suggest_version_bump` on an analysis: none when every bucket is empty (or there was nothing
      to analyse), else major on breaking changes, else minor on features, else patch. */
  function SuggestBump(a: Option<Changes>): (s: Suggestion)
    ensures s == NoBump <==> a.None? || a.value.IsEmpty()
    ensures s == Major <==> a.Some? && a.value.breaking != []
    ensures s == Minor <==> a.Some? && a.value.breaking == [] && a.value.features != []
    ensures s == Patch <==> a.Some? && a.value.breaking == [] && a.value.features == []
                            && (a.value.fixes != [] || a.value.other != [])
  {
    if a.None? || a.value.IsEmpty() then NoBump
    else if a.value.breaking != [] then Major
    else if a.value.features != [] then Minor
    else Patch
  }

  /** `suggest_version_bump` on the changelog text. */
  method SuggestVersionBump(changelog: Option<string>) returns (s: Suggestion)
    ensures s == SuggestBump(Analysis(changelog))
  {
    var changes := AnalyzeUnreleasedChanges(changelog);
    s := SuggestBump(changes);
  }

  // ---------------------------------------------------------------- properties of the classifier

  /** Filtering by a test and by its negation splits the items: the two parts add up to all of them. */
  lemma {:induction false} FilterPartition<T>(items: seq<T>, keep: T -> bool, drop: T -> bool)
    requires forall x :: drop(x) == !keep(x)
    ensures |Filter(items, keep)| + |Filter(items, drop)| == |items|
  {
    if items != [] {
      var front, last := items[..|items| - 1], items[|items| - 1];
      FilterPartition(front, keep, drop);
      assert items == front + [last];
      FilterSnoc(front, last, keep);
      FilterSnoc(front, last, drop);
    }
  }

  /** The Changed items split into the warning-worded and the other ones: each item is in exactly
      one part, and the parts add up to all of them. */
  lemma ChangedItemsPartition(items: seq<string>)
    ensures |Breaking(items)| + |NotBreaking(items)| == |items|
    ensures forall x :: x in Breaking(items) <==> x in items && MentionsBreaking(x)
    ensures forall x :: x in NotBreaking(items) <==> x in items && !MentionsBreaking(x)
  {
    FilterPartition(items, MentionsBreaking, Unflagged);
    FilterMembers(items, MentionsBreaking);
    FilterMembers(items, Unflagged);
  }

  /** Where each item of the Unreleased block lands. */
  lemma ClassifyPlacement(u: string, x: string)
    ensures x in ItemsUnder(u, "Removed") ==> x in Classify(u).breaking
    ensures x in ItemsUnder(u, "Changed") && MentionsBreaking(x) ==> x in Classify(u).breaking
    ensures x in ItemsUnder(u, "Changed") && !MentionsBreaking(x) ==> x in Classify(u).other
    ensures x in Classify(u).other <==> x in ItemsUnder(u, "Changed") && !MentionsBreaking(x)
    ensures x !in ItemsUnder(u, "Removed") ==>
              (x in Classify(u).breaking <==> x in ItemsUnder(u, "Changed") && MentionsBreaking(x))
    ensures x in Classify(u).features <==> x in ItemsUnder(u, "Added")
    ensures x in Classify(u).fixes <==> x in ItemsUnder(u, "Fixed") || x in ItemsUnder(u, "Security")
  {
    ChangedItemsPartition(ItemsUnder(u, "Changed"));
  }

  /** Every item of the five read subsections is counted exactly once across the four buckets. */
  lemma ClassifyCounts(u: string)
    ensures var c := Classify(u);
            |c.breaking| + |c.features| + |c.fixes| + |c.other|
            == |ItemsUnder(u, "Removed")| + |ItemsUnder(u, "Changed")| + |ItemsUnder(u, "Added")|
               + |ItemsUnder(u, "Fixed")| + |ItemsUnder(u, "Security")|
  {
    ChangedItemsPartition(ItemsUnder(u, "Changed"));
  }

  /** The Changed items hold a warning-worded one exactly when the breaking part is non-empty;
      when none is warning-worded, all of them are other. */
  lemma BreakingNonEmpty(items: seq<string>)
    ensures Breaking(items) != [] <==> exists x :: x in items && MentionsBreaking(x)
    ensures (forall x :: x in items ==> !MentionsBreaking(x)) ==> NotBreaking(items) == items
  {
    ChangedItemsPartition(items);
    if Breaking(items) != [] {
      assert Breaking(items)[0] in Breaking(items);
    }
    if forall x :: x in items ==> !MentionsBreaking(x) {
      FilterAll(items, Unflagged);
    }
  }

  /** The suggestion for an Unreleased block, stated on its subsections in order of precedence:
      major if a Removed item or a warning-worded Changed item exists, else minor if an Added item
      exists, else patch if any Fixed, Security or Changed item exists, else none. */
  lemma SuggestionPrecedence(u: string)
    ensures SuggestBump(Some(Classify(u))) ==
      if ItemsUnder(u, "Removed") != [] || exists x :: x in ItemsUnder(u, "Changed") && MentionsBreaking(x)
      then Major
      else if ItemsUnder(u, "Added") != [] then Minor
      else if ItemsUnder(u, "Fixed") != [] || ItemsUnder(u, "Security") != [] || ItemsUnder(u, "Changed") != []
      then Patch
      else NoBump
  {
    BreakingNonEmpty(ItemsUnder(u, "Changed"));
  }

  /** Without a changelog, or without an Unreleased heading in it, nothing is analysed and no bump
      is suggested. */
  lemma NothingToAnalyse(changelog: Option<string>)
    requires changelog.Some? ==> !Contains(changelog.value, UnreleasedHeading)
    ensures Analysis(changelog) == None
    ensures SuggestBump(Analysis(changelog)) == NoBump
  {
  }

  /** A subsection heading that does not occur contributes no items. */
  lemma AbsentHeadingNoItems(u: string, heading: string)
    requires !Contains(u, Opener(heading))
    ensures ItemsUnder(u, heading) == []
  {
    assert SubsectionBodies(u, Opener(heading), 0) == [];
  }

  /** A block with none of the five read subsection headings (one holding only `### Deprecated`
      entries, say) suggests no bump. */
  lemma UnreadHeadingsSuggestNothing(u: string)
    requires !Contains(u, Opener("Removed")) && !Contains(u, Opener("Changed")) && !Contains(u, Opener("Added"))
    requires !Contains(u, Opener("Fixed")) && !Contains(u, Opener("Security"))
    ensures Classify(u).IsEmpty()
    ensures SuggestBump(Some(Classify(u))) == NoBump
  {
    AbsentHeadingNoItems(u, "Removed");
    AbsentHeadingNoItems(u, "Changed");
    AbsentHeadingNoItems(u, "Added");
    AbsentHeadingNoItems(u, "Fixed");
    AbsentHeadingNoItems(u, "Security");
  }

  // ---------------------------------------------------------------- the bump command

  datatype BumpOutcome = NothingToBump | Bumped(previous: string, next: string, setup: string)

  /** The `bump` command on the setup script and the changelog: with `auto` the kind is the suggestion
      and "none" stops before anything is read from the setup script; otherwise the requested kind is
      used. The new version is computed, then written into the setup script. */
  method BumpCommand(setup: string, changelog: Option<string>, auto: bool, requested: string)
    returns (r: Result<BumpOutcome>)
    ensures r == Ok(NothingToBump) <==> auto && SuggestBump(Analysis(changelog)) == NoBump
    ensures r.Ok? && r.value.Bumped? ==>
              var kind := if auto then SuggestBump(Analysis(changelog)).Kind() else requested;
              && GetCurrentVersion(setup) == Ok(r.value.previous)
              && BumpVersion(setup, kind) == Ok(r.value.next)
              && UpdateSetupPy(setup, r.value.next) == Ok(r.value.setup)
              && ParseVersion(r.value.previous).Ok? && ParseVersion(r.value.next).Ok?
              && Less(ParseVersion(r.value.previous).value, ParseVersion(r.value.next).value)
              && GetCurrentVersion(r.value.setup) == Ok(r.value.next)
    ensures r.Err? <==> !(auto && SuggestBump(Analysis(changelog)) == NoBump)
                        && BumpVersion(setup, if auto then SuggestBump(Analysis(changelog)).Kind() else requested).Err?
  {
    var kind := requested;
    if auto {
      var suggested := SuggestVersionBump(changelog);
      if suggested == NoBump {
        return Ok(NothingToBump);
      }
      kind := suggested.Kind();
    }
    var current := GetCurrentVersion(setup);
    if current.Err? {
      return Err(current.message);
    }
    var next := BumpVersion(setup, kind);
    if next.Err? {
      return Err(next.message);
    }
    BumpVersionIncreases(setup, kind);
    // the write cannot fail once the bump succeeded
    UpdateAfterBump(setup, kind);
    var updated := UpdateSetupPy(setup, next.value);
    r := Ok(Bumped(current.value, next.value, updated.value));
  }
}
