/**
 * String operations of JavaScript that the core relies on (`includes`,
 * `startsWith`, `indexOf`, `toLowerCase`) and the ASCII case folding that a
 * regular expression with the `i` flag performs on ASCII pattern letters.
 */
module Text {
  import opened Wrappers

  /** `s.startsWith(p)`. */
  predicate StartsWith(s: string, p: string) {
    |p| <= |s| && s[..|p|] == p
  }

  /** `p` occurs in `s` starting at index `i`. */
  predicate OccursAt(s: string, p: string, i: nat) {
    i + |p| <= |s| && s[i..i + |p|] == p
  }

  /** `s.includes(p)`, searching from index `i` on. */
  function ContainsFrom(s: string, p: string, i: nat): (r: bool)
    decreases |s| - i
    ensures r <==> exists j: nat :: i <= j && OccursAt(s, p, j)
  {
    if i + |p| > |s| then false
    else OccursAt(s, p, i) || ContainsFrom(s, p, i + 1)
  }

  /** `s.includes(p)`. */
  function Contains(s: string, p: string): (r: bool)
    ensures r <==> exists j: nat :: OccursAt(s, p, j)
  {
    ContainsFrom(s, p, 0)
  }

  /** `ps.some(p => s.includes(p))`. */
  function ContainsAny(s: string, ps: seq<string>): (r: bool)
    ensures r <==> exists k :: 0 <= k < |ps| && Contains(s, ps[k])
  {
    if ps == [] then false
    else
      var rest := ContainsAny(s, ps[1..]);
      assert forall k :: 1 <= k < |ps| ==> ps[k] == ps[1..][k - 1];
      Contains(s, ps[0]) || rest
  }

  /** `s.indexOf(p, from)`, as an option: the first occurrence of `p` at or after `from`. */
  function IndexOf(s: string, p: string, from: nat): (r: Option<nat>)
    decreases |s| - from
    ensures r.Some? ==> from <= r.value && OccursAt(s, p, r.value)
    ensures r.Some? ==> forall k: nat :: from <= k < r.value ==> !OccursAt(s, p, k)
    ensures r.None? ==> forall k: nat :: from <= k ==> !OccursAt(s, p, k)
  {
    if from + |p| > |s| then None
    else if OccursAt(s, p, from) then Some(from)
    else IndexOf(s, p, from + 1)
  }

  /** `s.indexOf(c, from)` for a single character, as an option. */
  function IndexOfChar(s: string, c: char, from: nat): (r: Option<nat>)
    decreases |s| - from
    ensures r.Some? ==> from <= r.value < |s| && s[r.value] == c
    ensures r.Some? ==> forall k :: from <= k < r.value ==> s[k] != c
    ensures r.None? ==> forall k :: from <= k < |s| ==> s[k] != c
  {
    if from >= |s| then None
    else if s[from] == c then Some(from)
    else IndexOfChar(s, c, from + 1)
  }

  /** ASCII lower-casing of one character. */
  function AsciiLower(c: char): char {
    if 'A' <= c <= 'Z' then (c as int + 32) as char else c
  }

  /** ASCII lower-casing of a string: how a `Headers` object normalises a header name. */
  function AsciiLowerString(s: string): (r: string)
    ensures |r| == |s|
  {
    if s == [] then [] else [AsciiLower(s[0])] + AsciiLowerString(s[1..])
  }

  /**
   * `p` (written in lower case) occurs at `i` in `s` when letters are
   * compared without regard to ASCII case: what a regular expression with
   * the `i` flag does. ECMAScript's case canonicalisation never maps a
   * non-ASCII character to an ASCII one, so ASCII folding is exact here.
   */
  predicate OccursAtCI(s: string, p: string, i: nat) {
    i + |p| <= |s| && forall k :: 0 <= k < |p| ==> AsciiLower(s[i + k]) == p[k]
  }

  /**
   * What `toLowerCase` does to one character, as far as any search for an
   * ASCII string can tell: ASCII capitals become small letters, and the only
   * two non-ASCII characters whose lower case holds ASCII letters (KELVIN
   * SIGN and LATIN CAPITAL LETTER I WITH DOT ABOVE) get theirs. Every other
   * non-ASCII character lower-cases to a non-ASCII character and is kept.
   */
  function LowerChar(c: char): string {
    if 'A' <= c <= 'Z' then [(c as int + 32) as char]
    else if c == '\U{212A}' then "k"
    else if c == '\U{130}' then "i\U{307}"
    else [c]
  }

  /** `s.toLowerCase()`, up to the non-ASCII characters it leaves alone. */
  function LowerCase(s: string): string {
    if s == [] then [] else LowerChar(s[0]) + LowerCase(s[1..])
  }

  /** Lower-casing distributes over concatenation. */
  lemma {:induction false} LowerCaseAppend(a: string, b: string)
    ensures LowerCase(a + b) == LowerCase(a) + LowerCase(b)
  {
    if a != [] {
      assert (a + b)[0] == a[0] && (a + b)[1..] == a[1..] + b;
      LowerCaseAppend(a[1..], b);
      calc {
        LowerCase(a + b);
        LowerChar(a[0]) + LowerCase(a[1..] + b);
        LowerChar(a[0]) + (LowerCase(a[1..]) + LowerCase(b));
      }
    } else {
      assert a + b == b;
    }
  }

  /** What one character lower-cases to is left alone by a second lower-casing. */
  lemma LowerCharFixed(c: char)
    ensures LowerCase(LowerChar(c)) == LowerChar(c)
  {
    var l := LowerChar(c);
    if c == '\U{130}' {
      assert LowerCase(l) == LowerChar('i') + LowerCase(l[1..]);
      assert LowerCase(l[1..]) == LowerChar('\U{307}') + LowerCase([]);
    } else {
      assert LowerCase(l) == LowerChar(l[0]) + LowerCase([]);
    }
  }

  /** Lower-casing twice is lower-casing once. */
  lemma {:induction false} LowerCaseTwice(s: string)
    ensures LowerCase(LowerCase(s)) == LowerCase(s)
  {
    if s != [] {
      LowerCaseAppend(LowerChar(s[0]), LowerCase(s[1..]));
      LowerCharFixed(s[0]);
      LowerCaseTwice(s[1..]);
    }
  }

  /** A string of small ASCII letters, digits and punctuation is unchanged by lower-casing. */
  lemma {:induction false} LowerCaseOfLower(p: string)
    requires forall k :: 0 <= k < |p| ==> p[k] < '\U{80}' && !('A' <= p[k] <= 'Z')
    ensures LowerCase(p) == p
  {
    if p != [] {
      LowerCaseOfLower(p[1..]);
    }
  }

  /** An occurrence of a lower-case ASCII string survives lower-casing. */
  lemma ContainsLowerCase(s: string, p: string)
    requires forall k :: 0 <= k < |p| ==> p[k] < '\U{80}' && !('A' <= p[k] <= 'Z')
    requires Contains(s, p)
    ensures Contains(LowerCase(s), p)
  {
    var j: nat :| OccursAt(s, p, j);
    var a, b := s[..j], s[j + |p|..];
    assert s == a + p + b;
    LowerCaseAppend(a + p, b);
    LowerCaseAppend(a, p);
    LowerCaseOfLower(p);
    assert OccursAt(LowerCase(s), p, |LowerCase(a)|);
  }

  /** On a name made of ASCII characters, `toLowerCase` and ASCII lower-casing agree. */
  lemma {:induction false} LowerCaseOfAscii(s: string)
    requires forall k :: 0 <= k < |s| ==> s[k] < '\U{80}'
    ensures LowerCase(s) == AsciiLowerString(s)
  {
    if s != [] {
      LowerCaseOfAscii(s[1..]);
    }
  }

  /** ASCII lower-casing keeps every non-ASCII character where it is. */
  lemma {:induction false} AsciiLowerKeepsNonAscii(s: string, k: nat)
    requires k < |s| && s[k] >= '\U{80}'
    ensures AsciiLowerString(s)[k] == s[k]
  {
    if k > 0 {
      AsciiLowerKeepsNonAscii(s[1..], k - 1);
    }
  }

  /** A string whose ASCII lower case is all ASCII is all ASCII itself. */
  lemma AsciiOfAsciiLower(s: string)
    requires forall k :: 0 <= k < |s| ==> AsciiLowerString(s)[k] < '\U{80}'
    ensures forall k :: 0 <= k < |s| ==> s[k] < '\U{80}'
  {
    forall k | 0 <= k < |s| ensures s[k] < '\U{80}' {
      if s[k] >= '\U{80}' {
        AsciiLowerKeepsNonAscii(s, k);
      }
    }
  }

  /** `x` occurs in `a + x + b` right after `a`. */
  lemma OccursInMiddle(a: string, x: string, b: string)
    ensures OccursAt(a + x + b, x, |a|)
    ensures Contains(a + x + b, x)
  {
    var s := a + x + b;
    assert s[|a|..|a| + |x|] == x;
    assert OccursAt(s, x, |a|);
  }

  /** `p` occurs at the end of `x + p`. */
  lemma OccursAtEnd(x: string, p: string)
    ensures OccursAt(x + p, p, |x|)
  {
    assert (x + p)[|x|..|x| + |p|] == p;
  }

  /** Text that contains `p + x` contains `p`. */
  lemma ContainsFront(s: string, p: string, x: string)
    requires Contains(s, p + x)
    ensures Contains(s, p)
  {
    var j: nat :| OccursAt(s, p + x, j);
    assert s[j..j + |p|] == s[j..j + |p + x|][..|p|];
    assert OccursAt(s, p, j);
  }

  /** An occurrence stays where it is when text is appended. */
  lemma OccursExtend(x: string, p: string, i: nat, y: string)
    requires OccursAt(x, p, i)
    ensures OccursAt(x + y, p, i)
  {
    assert (x + y)[i..i + |p|] == x[i..i + |p|];
  }

  /** An occurrence at the very end grows by whatever is appended. */
  lemma OccursGrow(x: string, p: string, i: nat, y: string)
    requires OccursAt(x, p, i) && i + |p| == |x|
    ensures OccursAt(x + y, p + y, i)
  {
    assert (x + y)[i..i + |p + y|] == x[i..] + y;
  }

  /** The second, the fourth and the middle three of five concatenated parts occur in the whole. */
  lemma OccursInFive(a: string, b: string, c: string, d: string, e: string)
    ensures Contains(a + b + c + d + e, b)
    ensures Contains(a + b + c + d + e, d)
    ensures Contains(a + b + c + d + e, b + c + d)
  {
    OccursAtEnd(a, b);
    OccursExtend(a + b, b, |a|, c);
    OccursExtend(a + b + c, b, |a|, d);
    OccursExtend(a + b + c + d, b, |a|, e);
    assert OccursAt(a + b + c + d + e, b, |a|);
    OccursAtEnd(a + b + c, d);
    OccursExtend(a + b + c + d, d, |a + b + c|, e);
    assert OccursAt(a + b + c + d + e, d, |a + b + c|);
    OccursGrow(a + b, b, |a|, c);
    OccursGrow(a + b + c, b + c, |a|, d);
    OccursExtend(a + b + c + d, b + c + d, |a|, e);
    assert OccursAt(a + b + c + d + e, b + c + d, |a|);
  }
}
