/**
 * The regular expressions of the proxy's HTML rewrite, each as a matcher
 * that says where a match starting at a given index ends, and the two ways
 * `String.prototype.replace` applies one: a single left-to-right pass that
 * replaces every non-overlapping leftmost match (the `g` flag), or the
 * first match only.
 */
module Scan {
  import opened Wrappers
  import opened Text

  type Literal = s: string | |s| > 0 witness "?"

  datatype Pattern =
    | Exact(lit: Literal)      // a case-sensitive literal, e.g. /target="_blank"/
    | BaseTag                  // /<base[^>]*>/
    | XfoMeta                  // /<meta[^>]*http-equiv=["']X-Frame-Options["'][^>]*>/i
    | HeadTag                  // /<head>/i
    | ServiceWorkerRegister    // /navigator\.serviceWorker\.register\([^)]+\)/

  const SwCall: string := "navigator.serviceWorker.register("

  predicate IsQuote(c: char) {
    c == '"' || c == '\''
  }

  /** `http-equiv=`, a quote, `X-Frame-Options`, a quote, at `k`; letters in any ASCII case. */
  predicate XfoAttributeAt(s: string, k: nat) {
    k + 28 <= |s| && OccursAtCI(s, "http-equiv=", k) && IsQuote(s[k + 11])
    && OccursAtCI(s, "x-frame-options", k + 12) && IsQuote(s[k + 27])
  }

  /** The attribute occurs somewhere after the tag name `<meta`. */
  ghost predicate HasXfoAttribute(body: string) {
    exists k: nat :: 5 <= k && XfoAttributeAt(body, k)
  }

  /**
   * The language of each regular expression: the strings it matches as a
   * whole. Each of these languages is prefix-free, so a match starting at
   * a given index is unique.
   */
  ghost predicate InLanguage(p: Pattern, w: string) {
    match p
    case Exact(lit) => w == lit
    case BaseTag =>
      |w| >= 6 && w[..5] == "<base" && w[|w| - 1] == '>'
      && forall k :: 5 <= k < |w| - 1 ==> w[k] != '>'
    case XfoMeta =>
      |w| >= 6 && OccursAtCI(w, "<meta", 0) && w[|w| - 1] == '>'
      && (forall k :: 5 <= k < |w| - 1 ==> w[k] != '>')
      && HasXfoAttribute(w[..|w| - 1])
    case HeadTag => |w| == 6 && OccursAtCI(w, "<head>", 0)
    case ServiceWorkerRegister =>
      |w| >= |SwCall| + 2 && w[..|SwCall|] == SwCall && w[|w| - 1] == ')'
      && forall k :: |SwCall| <= k < |w| - 1 ==> w[k] != ')'
  }

  /** Where the match of `p` that starts at `i` ends, if one starts there. */
  function MatchAt(p: Pattern, s: string, i: nat): (r: Option<nat>)
    ensures r.Some? ==> i < r.value <= |s|
  {
    match p
    case Exact(lit) => if OccursAt(s, lit, i) then Some(i + |lit|) else None
    case BaseTag => BaseTagAt(s, i)
    case XfoMeta => XfoMetaAt(s, i)
    case HeadTag => if OccursAtCI(s, "<head>", i) then Some(i + 6) else None
    case ServiceWorkerRegister => ServiceWorkerAt(s, i)
  }

  function BaseTagAt(s: string, i: nat): (r: Option<nat>)
    ensures r.Some? ==> i < r.value <= |s|
  {
    if !OccursAt(s, "<base", i) then None
    else match IndexOfChar(s, '>', i + 5)
      case None => None
      case Some(j) => Some(j + 1)
  }

  function XfoMetaAt(s: string, i: nat): (r: Option<nat>)
    ensures r.Some? ==> i < r.value <= |s|
  {
    if !OccursAtCI(s, "<meta", i) then None
    else match IndexOfChar(s, '>', i + 5)
      case None => None
      case Some(j) =>
        if exists k: nat :: i + 5 <= k && k + 28 <= j && XfoAttributeAt(s, k) then Some(j + 1) else None
  }

  function ServiceWorkerAt(s: string, i: nat): (r: Option<nat>)
    ensures r.Some? ==> i < r.value <= |s|
  {
    if !OccursAt(s, SwCall, i) then None
    else match IndexOfChar(s, ')', i + |SwCall|)
      case None => None
      case Some(j) => if j > i + |SwCall| then Some(j + 1) else None
  }

  lemma OccursAtCISlice(s: string, p: string, i: nat, lo: nat, hi: nat)
    requires lo <= i && i + |p| <= hi <= |s|
    ensures OccursAtCI(s, p, i) <==> OccursAtCI(s[lo..hi], p, i - lo)
  {
    var t := s[lo..hi];
    assert forall j :: i <= j < i + |p| ==> t[j - lo] == s[j];
  }

  lemma XfoAttributeSlice(s: string, k: nat, lo: nat, hi: nat)
    requires lo <= k && k + 28 <= hi <= |s|
    ensures XfoAttributeAt(s, k) <==> XfoAttributeAt(s[lo..hi], k - lo)
  {
    OccursAtCISlice(s, "http-equiv=", k, lo, hi);
    OccursAtCISlice(s, "x-frame-options", k + 12, lo, hi);
  }

  /**
   * The matcher agrees with the regular expression: a match starting at `i`
   * ends at `j` exactly when `s[i..j]` is in the pattern's language.
   */
  lemma MatchAtIsLanguage(p: Pattern, s: string, i: nat, j: nat)
    requires i <= j <= |s|
    ensures MatchAt(p, s, i) == Some(j) <==> InLanguage(p, s[i..j])
  {
    match p
    case Exact(lit) =>
    case BaseTag => BaseTagIsLanguage(s, i, j);
    case XfoMeta => XfoMetaIsLanguage(s, i, j);
    case HeadTag =>
      if j - i == 6 {
        OccursAtCISlice(s, "<head>", i, i, j);
      }
    case ServiceWorkerRegister => ServiceWorkerIsLanguage(s, i, j);
  }

  lemma BaseTagIsLanguage(s: string, i: nat, j: nat)
    requires i <= j <= |s|
    ensures BaseTagAt(s, i) == Some(j) <==> InLanguage(BaseTag, s[i..j])
  {
    if i + 5 < j {
      SliceOfSlice(s, i, j, 5);
      CloseAt(s, i, j, 5, '>');
    }
  }

  lemma XfoMetaIsLanguage(s: string, i: nat, j: nat)
    requires i <= j <= |s|
    ensures XfoMetaAt(s, i) == Some(j) <==> InLanguage(XfoMeta, s[i..j])
  {
    if i + 5 < j {
      OccursAtCISlice(s, "<meta", i, i, j);
      CloseAt(s, i, j, 5, '>');
      var w := s[i..j];
      assert w[..|w| - 1] == s[i..j - 1];
      XfoAttributeInTag(s, i, j - 1);
    }
  }

  /** The attribute lies inside the tag body exactly when it lies inside the slice that is the tag. */
  lemma XfoAttributeInTag(s: string, i: nat, e: nat)
    requires i + 5 <= e <= |s|
    ensures HasXfoAttribute(s[i..e]) <==> exists k: nat :: i + 5 <= k && k + 28 <= e && XfoAttributeAt(s, k)
  {
    if HasXfoAttribute(s[i..e]) {
      var k: nat :| 5 <= k && XfoAttributeAt(s[i..e], k);
      XfoAttributeSlice(s, i + k, i, e);
      assert i + 5 <= i + k && i + k + 28 <= e && XfoAttributeAt(s, i + k);
    }
    if exists k: nat :: i + 5 <= k && k + 28 <= e && XfoAttributeAt(s, k) {
      var k: nat :| i + 5 <= k && k + 28 <= e && XfoAttributeAt(s, k);
      XfoAttributeSlice(s, k, i, e);
      assert XfoAttributeAt(s[i..e], k - i);
    }
  }

  lemma ServiceWorkerIsLanguage(s: string, i: nat, j: nat)
    requires i <= j <= |s|
    ensures ServiceWorkerAt(s, i) == Some(j) <==> InLanguage(ServiceWorkerRegister, s[i..j])
  {
    var n := |SwCall|;
    if i + n < j {
      SliceOfSlice(s, i, j, n);
      CloseAt(s, i, j, n, ')');
    }
  }

  /** The first `n` characters of a slice are the slice of `n` characters. */
  lemma SliceOfSlice(s: string, i: nat, j: nat, n: nat)
    requires i + n <= j <= |s|
    ensures s[i..j][..n] == s[i..i + n]
  {
  }

  /**
   * The first `c` after the `n` characters from `i` on is at `j - 1` exactly
   * when the slice `s[i..j]` ends with `c` and has no other `c` past its first `n` characters.
   */
  lemma CloseAt(s: string, i: nat, j: nat, n: nat, c: char)
    requires i + n < j <= |s|
    ensures IndexOfChar(s, c, i + n) == Some(j - 1) <==>
      s[i..j][j - i - 1] == c && forall k :: n <= k < j - i - 1 ==> s[i..j][k] != c
  {
    var w := s[i..j];
    assert forall k :: n <= k < j - i ==> w[k] == s[i + k];
    if w[j - i - 1] == c && forall k :: n <= k < j - i - 1 ==> w[k] != c {
      forall k | i + n <= k < j - 1 ensures s[k] != c {
        assert w[k - i] == s[k];
      }
    }
  }

  // ---------------------------------------------------------------------
  // The global replace: one left-to-right pass. The pass is stated for any
  // matcher that, where it finds a match, finds a non-empty one.

  /** A matcher: where the match starting at an index ends, if one starts there. */
  type Matcher = (string, nat) -> Option<nat>

  ghost predicate Advances(m: Matcher, s: string) {
    forall q: nat :: q < |s| && m(s, q).Some? ==> q < m(s, q).value <= |s|
  }

  function MatcherOf(p: Pattern): (m: Matcher)
    ensures forall s: string, i: nat :: m(s, i) == MatchAt(p, s, i)
  {
    (s: string, i: nat) => MatchAt(p, s, i)
  }

  lemma MatcherAdvances(p: Pattern, s: string)
    ensures Advances(MatcherOf(p), s)
  {
  }

  /** `s.replace(/p/g, repl)`, scanning from index `i`. */
  function ReplaceAllFrom(s: string, m: Matcher, repl: string, i: nat): string
    requires i <= |s| && Advances(m, s)
    decreases |s| - i
  {
    if i == |s| then []
    else match m(s, i)
      case Some(j) => repl + ReplaceAllFrom(s, m, repl, j)
      case None => [s[i]] + ReplaceAllFrom(s, m, repl, i + 1)
  }

  function ReplaceAll(s: string, p: Pattern, repl: string): string {
    MatcherAdvances(p, s);
    ReplaceAllFrom(s, MatcherOf(p), repl, 0)
  }

  /** The matches the pass from `i` replaces, as (start, end) pairs in order. */
  function MatchesFrom(s: string, m: Matcher, i: nat): seq<(nat, nat)>
    requires i <= |s| && Advances(m, s)
    decreases |s| - i
  {
    if i == |s| then []
    else match m(s, i)
      case Some(j) => [(i, j)] + MatchesFrom(s, m, j)
      case None => MatchesFrom(s, m, i + 1)
  }

  function Matches(s: string, p: Pattern): seq<(nat, nat)> {
    MatcherAdvances(p, s);
    MatchesFrom(s, MatcherOf(p), 0)
  }

  /** `ms` is a list of non-empty spans of `s`, each starting where or after the previous one ends, the first at or after `i`. */
  predicate Ordered(s: string, ms: seq<(nat, nat)>, i: nat)
    decreases |ms|
  {
    ms == [] || (i <= ms[0].0 < ms[0].1 <= |s| && Ordered(s, ms[1..], ms[0].1))
  }

  /** An ordered list of spans is a list of disjoint spans of `s`, in order, none starting before `i`. */
  lemma {:induction false} OrderedSpans(s: string, ms: seq<(nat, nat)>, i: nat)
    requires Ordered(s, ms, i)
    ensures forall k :: 0 <= k < |ms| ==> i <= ms[k].0 < ms[k].1 <= |s|
    ensures forall k, l :: 0 <= k < l < |ms| ==> ms[k].1 <= ms[l].0
    decreases |ms|
  {
    if ms != [] {
      var rest := ms[1..];
      OrderedSpans(s, rest, ms[0].1);
      assert forall k :: 1 <= k < |ms| ==> ms[k] == rest[k - 1];
    }
  }

  /** Position `q` lies inside one of the spans `ms`. */
  ghost predicate Covered(ms: seq<(nat, nat)>, q: nat) {
    exists k :: 0 <= k < |ms| && ms[k].0 <= q < ms[k].1
  }

  /** Removes the spans `ms` from `s[i..]` and writes `repl` in place of each. */
  function Splice(s: string, i: nat, ms: seq<(nat, nat)>, repl: string): string
    requires i <= |s| && Ordered(s, ms, i)
    decreases |ms|
  {
    if ms == [] then s[i..]
    else s[i..ms[0].0] + repl + Splice(s, ms[0].1, ms[1..], repl)
  }

  /** The total length of the spans `ms`. */
  function Width(ms: seq<(nat, nat)>): int {
    if ms == [] then 0 else ms[0].1 - ms[0].0 + Width(ms[1..])
  }

  /** Every span in `ms` is a match of `m` in `s`. */
  ghost predicate AllMatch(m: Matcher, s: string, ms: seq<(nat, nat)>) {
    forall k :: 0 <= k < |ms| ==> m(s, ms[k].0) == Some(ms[k].1)
  }

  /** No match starts at a position from `i` on that the spans `ms` leave uncovered. */
  ghost predicate NoneUncovered(m: Matcher, s: string, ms: seq<(nat, nat)>, i: nat) {
    forall q: nat :: i <= q < |s| && !Covered(ms, q) ==> m(s, q).None?
  }

  lemma {:induction false} MatchesOrdered(s: string, m: Matcher, i: nat)
    requires i <= |s| && Advances(m, s)
    ensures Ordered(s, MatchesFrom(s, m, i), i)
    decreases |s| - i
  {
    if i < |s| {
      match m(s, i)
      case Some(j) =>
        MatchesOrdered(s, m, j);
        var rest := MatchesFrom(s, m, j);
        assert ([(i, j)] + rest)[1..] == rest;
      case None =>
        MatchesOrdered(s, m, i + 1);
    }
  }

  lemma {:induction false} MatchesMatch(s: string, m: Matcher, i: nat)
    requires i <= |s| && Advances(m, s)
    ensures AllMatch(m, s, MatchesFrom(s, m, i))
    decreases |s| - i
  {
    if i < |s| {
      match m(s, i)
      case Some(j) =>
        MatchesMatch(s, m, j);
        var rest := MatchesFrom(s, m, j);
        var ms := [(i, j)] + rest;
        assert forall k :: 0 < k < |ms| ==> ms[k] == rest[k - 1];
      case None =>
        MatchesMatch(s, m, i + 1);
    }
  }

  lemma {:induction false} MatchesLeftmost(s: string, m: Matcher, i: nat)
    requires i <= |s| && Advances(m, s)
    ensures NoneUncovered(m, s, MatchesFrom(s, m, i), i)
    decreases |s| - i
  {
    if i < |s| {
      match m(s, i)
      case Some(j) =>
        MatchesLeftmost(s, m, j);
        var rest := MatchesFrom(s, m, j);
        var ms := [(i, j)] + rest;
        assert MatchesFrom(s, m, i) == ms;
        forall q: nat | i <= q < |s| && !Covered(ms, q) ensures m(s, q).None? {
          assert !(ms[0].0 <= q < ms[0].1);
          assert forall k :: 0 <= k < |rest| ==> rest[k] == ms[k + 1];
        }
      case None =>
        MatchesLeftmost(s, m, i + 1);
    }
  }

  /**
   * What the pass replaces: every span it lists is a match of the regular
   * expression, the spans are disjoint and in order, and no match starts at
   * a position outside them (the pass takes the leftmost match each time).
   */
  lemma MatchesAreLeftmost(s: string, p: Pattern)
    ensures Ordered(s, Matches(s, p), 0)
    ensures forall k :: 0 <= k < |Matches(s, p)| ==>
      Matches(s, p)[k].0 < Matches(s, p)[k].1 <= |s| && InLanguage(p, s[Matches(s, p)[k].0..Matches(s, p)[k].1])
    ensures forall k, l :: 0 <= k < l < |Matches(s, p)| ==> Matches(s, p)[k].1 <= Matches(s, p)[l].0
    ensures forall q: nat, j: nat :: q <= j <= |s| && !Covered(Matches(s, p), q) ==>
      !InLanguage(p, s[q..j])
  {
    var ms := Matches(s, p);
    MatcherAdvances(p, s);
    MatchesOrdered(s, MatcherOf(p), 0);
    OrderedSpans(s, ms, 0);
    MatchesMatch(s, MatcherOf(p), 0);
    MatchesLeftmost(s, MatcherOf(p), 0);
    forall k | 0 <= k < |ms| ensures InLanguage(p, s[ms[k].0..ms[k].1]) {
      MatchAtIsLanguage(p, s, ms[k].0, ms[k].1);
    }
    forall q: nat, j: nat | q <= j <= |s| && !Covered(ms, q) ensures !InLanguage(p, s[q..j]) {
      if q < |s| {
        MatchAtIsLanguage(p, s, q, j);
      } else {
        assert s[q..j] == [];
      }
    }
  }

  /** Splicing from one position earlier, before the first span, keeps one more character. */
  lemma SpliceStep(s: string, i: nat, ms: seq<(nat, nat)>, repl: string)
    requires i < |s| && Ordered(s, ms, i + 1)
    ensures Ordered(s, ms, i) && Splice(s, i, ms, repl) == [s[i]] + Splice(s, i + 1, ms, repl)
  {
    if ms == [] {
      assert s[i..] == [s[i]] + s[i + 1..];
    } else {
      var x := s[i + 1..ms[0].0];
      var rest := Splice(s, ms[0].1, ms[1..], repl);
      assert s[i..ms[0].0] == [s[i]] + x;
      PrependAssoc(s[i], x, repl, rest);
    }
  }

  lemma PrependAssoc(c: char, x: string, y: string, z: string)
    ensures [c] + x + y + z == [c] + (x + y + z)
  {
  }

  /** Splicing from the start of the first span writes `repl` first. */
  lemma SpliceFirst(s: string, i: nat, j: nat, rest: seq<(nat, nat)>, repl: string)
    requires i < j <= |s| && Ordered(s, rest, j)
    ensures Ordered(s, [(i, j)] + rest, i)
    ensures Splice(s, i, [(i, j)] + rest, repl) == repl + Splice(s, j, rest, repl)
  {
    assert ([(i, j)] + rest)[1..] == rest;
    assert s[i..i] == [];
  }

  /** The pass writes `s` back with each listed match replaced by `repl`. */
  lemma {:induction false} SpliceMatches(s: string, m: Matcher, repl: string, i: nat)
    requires i <= |s| && Advances(m, s)
    ensures Ordered(s, MatchesFrom(s, m, i), i)
    ensures ReplaceAllFrom(s, m, repl, i) == Splice(s, i, MatchesFrom(s, m, i), repl)
    decreases |s| - i
  {
    MatchesOrdered(s, m, i);
    if i < |s| {
      match m(s, i)
      case Some(j) =>
        SpliceMatches(s, m, repl, j);
        var rest := MatchesFrom(s, m, j);
        assert MatchesFrom(s, m, i) == [(i, j)] + rest;
        SpliceFirst(s, i, j, rest, repl);
      case None =>
        SpliceMatches(s, m, repl, i + 1);
        SpliceStep(s, i, MatchesFrom(s, m, i + 1), repl);
    }
  }

  lemma ReplaceAllIsSplice(s: string, p: Pattern, repl: string)
    ensures Ordered(s, Matches(s, p), 0)
    ensures ReplaceAll(s, p, repl) == Splice(s, 0, Matches(s, p), repl)
  {
    MatcherAdvances(p, s);
    SpliceMatches(s, MatcherOf(p), repl, 0);
  }

  /** `n` copies of a length `k`, added up one at a time. */
  function Times(n: nat, k: nat): nat {
    if n == 0 then 0 else k + Times(n - 1, k)
  }

  lemma {:induction false} TimesIsProduct(n: nat, k: nat)
    ensures Times(n, k) == n * k
  {
    if n > 0 {
      TimesIsProduct(n - 1, k);
    }
  }

  lemma {:induction false} LengthFrom(s: string, m: Matcher, repl: string, i: nat)
    requires i <= |s| && Advances(m, s)
    ensures |ReplaceAllFrom(s, m, repl, i)| ==
            |s| - i - Width(MatchesFrom(s, m, i)) + Times(|MatchesFrom(s, m, i)|, |repl|)
    decreases |s| - i
  {
    if i < |s| {
      match m(s, i)
      case Some(j) =>
        LengthFrom(s, m, repl, j);
        var rest := MatchesFrom(s, m, j);
        var ms := MatchesFrom(s, m, i);
        assert ms == [(i, j)] + rest;
        assert ms[1..] == rest;
      case None =>
        LengthFrom(s, m, repl, i + 1);
    }
  }

  /** The length of the result: each match's text is traded for one copy of `repl`. */
  lemma ReplaceAllLength(s: string, p: Pattern, repl: string)
    ensures |ReplaceAll(s, p, repl)| == |s| - Width(Matches(s, p)) + |Matches(s, p)| * |repl|
  {
    MatcherAdvances(p, s);
    LengthFrom(s, MatcherOf(p), repl, 0);
    TimesIsProduct(|Matches(s, p)|, |repl|);
  }

  lemma {:induction false} NoMatchFrom(s: string, m: Matcher, repl: string, i: nat)
    requires i <= |s| && Advances(m, s)
    requires forall q: nat :: i <= q < |s| ==> m(s, q).None?
    ensures MatchesFrom(s, m, i) == [] && ReplaceAllFrom(s, m, repl, i) == s[i..]
    decreases |s| - i
  {
    if i < |s| {
      NoMatchFrom(s, m, repl, i + 1);
      assert s[i..] == [s[i]] + s[i + 1..];
    }
  }

  /** A text in which the regular expression matches nowhere comes back unchanged. */
  lemma ReplaceAllNoMatch(s: string, p: Pattern, repl: string)
    requires forall q: nat :: q < |s| ==> MatchAt(p, s, q).None?
    ensures Matches(s, p) == [] && ReplaceAll(s, p, repl) == s
  {
    MatcherAdvances(p, s);
    NoMatchFrom(s, MatcherOf(p), repl, 0);
  }

  // ---------------------------------------------------------------------
  // Literal patterns.

  /** A literal no proper suffix of which is also a prefix: two occurrences can never overlap. */
  predicate NoSelfOverlap(lit: string) {
    forall d :: 0 < d < |lit| ==> lit[d..] != lit[..|lit| - d]
  }

  /** Two overlapping occurrences of a literal make a proper suffix of it equal to a prefix. */
  lemma OverlapShift(s: string, lit: string, a: nat, q: nat)
    requires a < q < a + |lit| && OccursAt(s, lit, a) && OccursAt(s, lit, q)
    ensures lit[q - a..] == lit[..|lit| - (q - a)]
  {
    var d := q - a;
    forall t | 0 <= t < |lit| - d ensures lit[d..][t] == lit[..|lit| - d][t] {
      assert lit[d + t] == s[a..a + |lit|][d + t] == s[q + t];
      assert lit[t] == s[q..q + |lit|][t];
    }
  }

  /** Two occurrences of a literal that cannot overlap itself are at least its length apart. */
  lemma OccurrencesApart(s: string, lit: string, a: nat, q: nat)
    requires NoSelfOverlap(lit) && a < q && OccursAt(s, lit, a) && OccursAt(s, lit, q)
    ensures a + |lit| <= q
  {
    if q < a + |lit| {
      OverlapShift(s, lit, a, q);
      assert false;
    }
  }

  /**
   * For a literal whose occurrences cannot overlap, the pass replaces every
   * occurrence: each occurrence starts one of the listed matches.
   */
  lemma EveryOccurrenceReplaced(s: string, lit: Literal, q: nat)
    requires NoSelfOverlap(lit) && OccursAt(s, lit, q)
    ensures exists k :: 0 <= k < |Matches(s, Exact(lit))| && Matches(s, Exact(lit))[k] == (q, q + |lit|)
  {
    var m := MatcherOf(Exact(lit));
    MatcherAdvances(Exact(lit), s);
    var ms := MatchesFrom(s, m, 0);
    assert ms == Matches(s, Exact(lit));
    assert m(s, q) == Some(q + |lit|);
    var k := CoveringMatch(m, s, q);
    var a := ms[k].0;
    assert m(s, a) == Some(ms[k].1);
    assert OccursAt(s, lit, a) && ms[k].1 == a + |lit|;
    if a < q {
      OccurrencesApart(s, lit, a, q);
    }
    assert ms[k] == (q, q + |lit|);
  }

  /** A position where a match starts lies inside one of the matches the pass lists. */
  lemma CoveringMatch(m: Matcher, s: string, q: nat) returns (k: nat)
    requires Advances(m, s) && q < |s| && m(s, q).Some?
    ensures var ms := MatchesFrom(s, m, 0);
      k < |ms| && ms[k].0 <= q < ms[k].1 && m(s, ms[k].0) == Some(ms[k].1)
  {
    var ms := MatchesFrom(s, m, 0);
    MatchesMatch(s, m, 0);
    MatchesLeftmost(s, m, 0);
    assert Covered(ms, q);
    k :| 0 <= k < |ms| && ms[k].0 <= q < ms[k].1;
  }

  /** Without an occurrence of the literal anywhere, the pass changes nothing. */
  lemma ReplaceAbsentLiteral(s: string, lit: Literal, repl: string)
    requires !Contains(s, lit)
    ensures ReplaceAll(s, Exact(lit), repl) == s
  {
    assert forall q: nat :: q < |s| ==> !OccursAt(s, lit, q);
    ReplaceAllNoMatch(s, Exact(lit), repl);
  }

  /** Removing a literal shortens the text by its length once for every match the pass lists. */
  lemma RemoveLiteralLength(s: string, lit: Literal)
    ensures |ReplaceAll(s, Exact(lit), "")| == |s| - |lit| * |Matches(s, Exact(lit))|
  {
    ReplaceAllLength(s, Exact(lit), "");
    MatcherAdvances(Exact(lit), s);
    MatchesMatch(s, MatcherOf(Exact(lit)), 0);
    LiteralWidth(s, lit, Matches(s, Exact(lit)));
  }

  /** Removing every match of a pattern never lengthens the text. */
  lemma RemovalShortens(s: string, p: Pattern)
    ensures |ReplaceAll(s, p, "")| <= |s|
  {
    ReplaceAllLength(s, p, "");
    MatcherAdvances(p, s);
    MatchesMatch(s, MatcherOf(p), 0);
    WidthNotNegative(s, p, Matches(s, p));
  }

  lemma {:induction false} WidthNotNegative(s: string, p: Pattern, ms: seq<(nat, nat)>)
    requires AllMatch(MatcherOf(p), s, ms)
    ensures Width(ms) >= 0
  {
    if ms != [] {
      assert MatchAt(p, s, ms[0].0) == Some(ms[0].1);
      WidthNotNegative(s, p, ms[1..]);
    }
  }

  lemma {:induction false} LiteralWidth(s: string, lit: Literal, ms: seq<(nat, nat)>)
    requires AllMatch(MatcherOf(Exact(lit)), s, ms)
    ensures Width(ms) == |lit| * |ms|
  {
    if ms != [] {
      LiteralWidth(s, lit, ms[1..]);
    }
  }

  // ---------------------------------------------------------------------
  // The replace of the first match only.

  /** The leftmost match at or after `i`, as a (start, end) pair. */
  function FirstMatchFrom(p: Pattern, s: string, i: nat): (r: Option<(nat, nat)>)
    requires i <= |s|
    decreases |s| - i
    ensures r.Some? ==> i <= r.value.0 && MatchAt(p, s, r.value.0) == Some(r.value.1)
    ensures r.Some? ==> forall q: nat :: i <= q < r.value.0 ==> MatchAt(p, s, q).None?
    ensures r.None? ==> forall q: nat :: i <= q < |s| ==> MatchAt(p, s, q).None?
  {
    if i == |s| then None
    else match MatchAt(p, s, i)
      case Some(j) => Some((i, j))
      case None => FirstMatchFrom(p, s, i + 1)
  }

  /** `s.replace(/p/, repl)` with a replacement taken literally. */
  function ReplaceFirst(s: string, p: Pattern, repl: string): string {
    match FirstMatchFrom(p, s, 0)
    case None => s
    case Some(m) => s[..m.0] + repl + s[m.1..]
  }

  /** Where the first match is `[q, e)`, the replace of the first match writes `repl` there. */
  lemma ReplaceFirstAt(s: string, p: Pattern, repl: string, q: nat, e: nat)
    requires FirstMatchFrom(p, s, 0) == Some((q, e))
    ensures q < e <= |s| && ReplaceFirst(s, p, repl) == s[..q] + repl + s[e..]
  {
  }

  /**
   * The replacement string of `String.prototype.replace` is a template
   * (GetSubstitution, section 22.1.3.19.1 of ECMA-262): `$$` stands for `$`,
   * `$&` for the match, `` $` `` for the text before it and `$'` for the
   * text after it. With no capture groups every other `$` is literal.
   */
  function Expand(t: string, matched: string, before: string, after: string): string
    decreases |t|
  {
    if t == [] then []
    else if |t| >= 2 && t[0] == '$' && t[1] in "$&`'" then
      (if t[1] == '$' then "$"
       else if t[1] == '&' then matched
       else if t[1] == '`' then before
       else after) + Expand(t[2..], matched, before, after)
    else [t[0]] + Expand(t[1..], matched, before, after)
  }

  /** A template without `$` stands for itself. */
  lemma {:induction false} ExpandPlain(t: string, matched: string, before: string, after: string)
    requires '$' !in t
    ensures Expand(t, matched, before, after) == t
  {
    if t != [] {
      assert t[0] != '$';
      ExpandPlain(t[1..], matched, before, after);
    }
  }

  /** A `$`-free start of a template stands for itself, whatever follows. */
  lemma {:induction false} ExpandAfterPlain(p: string, t: string, matched: string, before: string, after: string)
    requires '$' !in p
    ensures Expand(p + t, matched, before, after) == p + Expand(t, matched, before, after)
  {
    if p != [] {
      assert (p + t)[0] == p[0] && (p + t)[1..] == p[1..] + t;
      assert p[0] != '$';
      ExpandAfterPlain(p[1..], t, matched, before, after);
    } else {
      assert p + t == t;
    }
  }

  /** In a template whose only `$` is one `$'`, that pattern stands for the text after the match. */
  lemma ExpandDollarQuote(p: string, t: string, matched: string, before: string, after: string)
    requires '$' !in p && '$' !in t
    ensures Expand(p + "$'" + t, matched, before, after) == p + after + t
  {
    assert p + "$'" + t == p + ("$'" + t);
    ExpandAfterPlain(p, "$'" + t, matched, before, after);
    var u := "$'" + t;
    assert u[0] == '$' && u[1] == '\'' && u[2..] == t;
    ExpandPlain(t, matched, before, after);
  }

  /** `s.replace(/p/, template)` as ECMAScript evaluates it, expanding `$` patterns. */
  function ReplaceFirstTemplate(s: string, p: Pattern, t: string): string {
    match FirstMatchFrom(p, s, 0)
    case None => s
    case Some(m) => s[..m.0] + Expand(t, s[m.0..m.1], s[..m.0], s[m.1..]) + s[m.1..]
  }

  /** With a template free of `$`, the template replace and the literal replace agree. */
  lemma ReplaceFirstPlainTemplate(s: string, p: Pattern, t: string)
    requires '$' !in t
    ensures ReplaceFirstTemplate(s, p, t) == ReplaceFirst(s, p, t)
  {
    match FirstMatchFrom(p, s, 0)
    case None =>
    case Some(m) => ExpandPlain(t, s[m.0..m.1], s[..m.0], s[m.1..]);
  }
}
