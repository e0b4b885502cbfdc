/**
 * The semantics of JavaScript's `String.prototype.replace` and `split` with a global
 * regular expression, over rules written as explicit matchers instead of a regex engine.
 *
 * A `Matcher` says, for a position `i` of the ORIGINAL string, which match the regular
 * expression would report if its search reached `i` (backtracking already resolved),
 * and what that match is replaced by. `ReplaceFrom` is the search: leftmost, non-overlapping,
 * never rescanning replaced text; an empty match emits its replacement and then the next
 * character, as JavaScript does when it advances past an empty match.
 */
module Rewrite {
  import opened Wrappers
  import Chars

  /** One match: the number of characters consumed and their replacement. */
  datatype Hit = Hit(len: nat, out: string)

  type Matcher = (string, nat) -> Option<Hit>

  /** `m` reports a match at `i` that fits inside `s`. */
  predicate ValidHit(s: string, m: Matcher, i: nat) {
    i <= |s| && m(s, i).Some? && i + m(s, i).value.len <= |s|
  }

  /** `s.replace(/rule/g, ...)` applied from position `i` on. */
  function ReplaceFrom(s: string, m: Matcher, i: nat): string
    requires i <= |s|
    decreases |s| - i
  {
    if ValidHit(s, m, i) then
      var h := m(s, i).value;
      if h.len > 0 then h.out + ReplaceFrom(s, m, i + h.len)
      else if i == |s| then h.out
      else h.out + [s[i]] + ReplaceFrom(s, m, i + 1)
    else if i == |s| then []
    else [s[i]] + ReplaceFrom(s, m, i + 1)
  }

  /** `s.replace(/rule/g, ...)`. */
  function ReplaceGlobal(s: string, m: Matcher): string {
    ReplaceFrom(s, m, 0)
  }

  /** A rule that matches nowhere leaves the text as it is. */
  lemma {:induction false} NoHitIdentity(s: string, m: Matcher, i: nat)
    requires i <= |s|
    requires forall j :: i <= j <= |s| ==> !ValidHit(s, m, j)
    ensures ReplaceFrom(s, m, i) == s[i..]
    decreases |s| - i
  {
    if i < |s| {
      NoHitIdentity(s, m, i + 1);
      assert s[i..] == [s[i]] + s[i + 1..];
    }
  }

  /** A match of positive length is replaced and the scan goes on after it. */
  lemma HitStep(s: string, m: Matcher, i: nat)
    requires ValidHit(s, m, i) && m(s, i).value.len > 0
    ensures ReplaceFrom(s, m, i) == m(s, i).value.out + ReplaceFrom(s, m, i + m(s, i).value.len)
  {
  }

  /** A stretch without matches is copied as it is. */
  lemma {:induction false} NoHitSpan(s: string, m: Matcher, i: nat, k: nat)
    requires i <= k <= |s|
    requires forall j :: i <= j < k ==> !ValidHit(s, m, j)
    ensures ReplaceFrom(s, m, i) == s[i..k] + ReplaceFrom(s, m, k)
    decreases k - i
  {
    if i < k {
      NoHitSpan(s, m, i + 1, k);
      assert s[i..k] == [s[i]] + s[i + 1..k];
    }
  }

  /** A rule whose replacements are never longer than their matches never lengthens the text. */
  lemma {:induction false} NotLonger(s: string, m: Matcher, i: nat)
    requires i <= |s|
    requires forall j :: i <= j <= |s| && ValidHit(s, m, j) ==> |m(s, j).value.out| <= m(s, j).value.len
    ensures |ReplaceFrom(s, m, i)| <= |s| - i
    decreases |s| - i
  {
    if ValidHit(s, m, i) && m(s, i).value.len > 0 {
      NotLonger(s, m, i + m(s, i).value.len);
    } else if i < |s| {
      NotLonger(s, m, i + 1);
    }
  }

  /**
   * A rule whose replacements are always strictly shorter than their matches shortens
   * the text as soon as it matches anywhere: the scan either takes that match or skips
   * it inside an earlier one, and either way shortens.
   */
  lemma {:induction false} Shorter(s: string, m: Matcher, i: nat, j: nat)
    requires i <= j <= |s|
    requires forall k :: i <= k <= |s| && ValidHit(s, m, k) ==> |m(s, k).value.out| < m(s, k).value.len
    requires ValidHit(s, m, j)
    ensures |ReplaceFrom(s, m, i)| < |s| - i
    decreases |s| - i
  {
    if ValidHit(s, m, i) {
      NotLonger(s, m, i + m(s, i).value.len);
    } else {
      assert i < j;
      Shorter(s, m, i + 1, j);
    }
  }

  /** No character satisfying `p` is directly followed by one satisfying `q`. */
  ghost predicate NoPair(t: string, p: char -> bool, q: char -> bool) {
    forall k :: 0 <= k < |t| - 1 ==> !(p(t[k]) && q(t[k + 1]))
  }

  /** A guarantee about wider classes holds for narrower ones. */
  lemma NoPairNarrow(t: string, p: char -> bool, q: char -> bool, p': char -> bool, q': char -> bool)
    requires NoPair(t, p, q)
    requires forall c :: p'(c) ==> p(c)
    requires forall c :: q'(c) ==> q(c)
    ensures NoPair(t, p', q')
  {
  }

  lemma NoPairConcat(a: string, b: string, p: char -> bool, q: char -> bool)
    requires NoPair(a, p, q) && NoPair(b, p, q)
    requires a != [] && b != [] ==> !(p(a[|a| - 1]) && q(b[0]))
    ensures NoPair(a + b, p, q)
  {
    var t := a + b;
    forall k | 0 <= k < |t| - 1 ensures !(p(t[k]) && q(t[k + 1])) {
      if k + 1 < |a| {
        assert t[k] == a[k] && t[k + 1] == a[k + 1];
      } else if k >= |a| {
        assert t[k] == b[k - |a|] && t[k + 1] == b[k - |a| + 1];
      }
    }
  }

  /**
   * The general argument that a global replacement leaves no `p`-character directly
   * before a `q`-character. `g(s, k)` over-approximates "the output produced from
   * position k starts with a q-character"; the rule must keep every pair it creates
   * or leaves alone harmless with respect to it.
   */
  lemma {:induction false} PairFree(s: string, m: Matcher, p: char -> bool, q: char -> bool,
                                    g: (string, nat) -> bool, i: nat)
    requires i <= |s|
    requires forall j :: i <= j <= |s| && ValidHit(s, m, j) ==> m(s, j).value.len > 0
    requires forall j :: i <= j < |s| && ValidHit(s, m, j) ==>
      var h := m(s, j).value;
      h.out != [] && NoPair(h.out, p, q) && (q(h.out[0]) ==> g(s, j))
      && !(p(h.out[|h.out| - 1]) && g(s, j + h.len))
    requires forall k :: i <= k < |s| && !ValidHit(s, m, k) ==>
      (q(s[k]) ==> g(s, k)) && !(p(s[k]) && g(s, k + 1))
    ensures NoPair(ReplaceFrom(s, m, i), p, q)
    ensures ReplaceFrom(s, m, i) != [] && q(ReplaceFrom(s, m, i)[0]) ==> g(s, i)
    decreases |s| - i
  {
    if i == |s| {
      assert !ValidHit(s, m, i);
    } else if ValidHit(s, m, i) {
      var h := m(s, i).value;
      PairFree(s, m, p, q, g, i + h.len);
      NoPairConcat(h.out, ReplaceFrom(s, m, i + h.len), p, q);
    } else {
      PairFree(s, m, p, q, g, i + 1);
      NoPairConcat([s[i]], ReplaceFrom(s, m, i + 1), p, q);
    }
  }

  /** `NoHitIdentity` for the whole text. */
  lemma Idle(s: string, m: Matcher)
    requires forall j :: 0 <= j <= |s| ==> !ValidHit(s, m, j)
    ensures ReplaceGlobal(s, m) == s
  {
    NoHitIdentity(s, m, 0);
    assert s[0..] == s;
  }

  /** A rule that matches exactly once replaces exactly that stretch. */
  lemma OneHit(s: string, m: Matcher, j: nat)
    requires ValidHit(s, m, j) && m(s, j).value.len > 0
    requires forall k :: 0 <= k < j ==> !ValidHit(s, m, k)
    requires forall k :: j + m(s, j).value.len <= k <= |s| ==> !ValidHit(s, m, k)
    ensures ReplaceGlobal(s, m) == s[..j] + m(s, j).value.out + s[j + m(s, j).value.len..]
  {
    var e := j + m(s, j).value.len;
    NoHitSpan(s, m, 0, j);
    NoHitIdentity(s, m, e);
  }

  /**
   * A rule keeps "no `p`-character directly before a `q`-character" when every replacement
   * is non-empty and free of such pairs, ends in no `p`-character, and starts with a
   * `q`-character only where the match did.
   */
  lemma NoPairKept(s: string, m: Matcher, p: char -> bool, q: char -> bool)
    requires NoPair(s, p, q)
    requires forall j :: 0 <= j <= |s| && ValidHit(s, m, j) ==>
      var h := m(s, j).value;
      h.len > 0 && h.out != [] && NoPair(h.out, p, q)
      && (q(h.out[0]) ==> q(s[j])) && !p(h.out[|h.out| - 1])
    ensures NoPair(ReplaceGlobal(s, m), p, q)
  {
    var g := (t: string, k: nat) => k < |t| && q(t[k]);
    PairFree(s, m, p, q, g, 0);
  }

  /**
   * `NoPairKept` for rules whose replacement may end in a `p`-character, provided the
   * match ended in one too.
   */
  lemma NoPairKeptEnds(s: string, m: Matcher, p: char -> bool, q: char -> bool)
    requires NoPair(s, p, q)
    requires forall j :: 0 <= j <= |s| && ValidHit(s, m, j) ==>
      var h := m(s, j).value;
      h.len > 0 && h.out != [] && NoPair(h.out, p, q)
      && (q(h.out[0]) ==> q(s[j])) && (p(h.out[|h.out| - 1]) ==> p(s[j + h.len - 1]))
    ensures NoPair(ReplaceGlobal(s, m), p, q)
  {
    var g := (t: string, k: nat) => k < |t| && q(t[k]);
    forall j | 0 <= j < |s| && ValidHit(s, m, j)
      ensures var h := m(s, j).value; !(p(h.out[|h.out| - 1]) && g(s, j + h.len))
    {
    }
    PairFree(s, m, p, q, g, 0);
  }

  // ---------------------------------------------------------------------------
  // Literal patterns: `new RegExp(escapeRegex(pat), 'g')`

  /** `pat` occurs in `s` starting at index `i`. */
  predicate OccursAt(s: string, i: nat, pat: string)
    decreases pat
  {
    i <= |s| && (pat == [] || (i < |s| && s[i] == pat[0] && OccursAt(s, i + 1, pat[1..])))
  }

  lemma {:induction false} OccursAtSlice(s: string, i: nat, pat: string)
    ensures OccursAt(s, i, pat) <==> i + |pat| <= |s| && s[i..i + |pat|] == pat
    decreases pat
  {
    if pat != [] {
      var tail := pat[1..];
      OccursAtSlice(s, i + 1, tail);
      if OccursAt(s, i, pat) {
        assert i + 1 + |tail| <= |s| && s[i + 1..i + 1 + |tail|] == tail;
        assert s[i..i + |pat|] == [s[i]] + s[i + 1..i + 1 + |tail|];
        assert pat == [pat[0]] + tail;
      }
      if i + |pat| <= |s| && s[i..i + |pat|] == pat {
        var w := s[i..i + |pat|];
        assert w[0] == s[i];
        assert w[1..] == s[i + 1..i + 1 + |tail|];
      }
    }
  }

  /** `pat` occurs somewhere in `s` (JavaScript's `s.includes(pat)`). */
  ghost predicate Contains(s: string, pat: string) {
    exists k :: 0 <= k <= |s| && OccursAt(s, k, pat)
  }

  /** `pat` occurs in `a + b` at `|a| + k` exactly when it occurs in `b` at `k`. */
  lemma OccursAfter(a: string, b: string, k: nat, pat: string)
    ensures OccursAt(a + b, |a| + k, pat) <==> OccursAt(b, k, pat)
  {
    OccursAtSlice(a + b, |a| + k, pat);
    OccursAtSlice(b, k, pat);
    if |a| + k + |pat| <= |a + b| {
      assert (a + b)[|a| + k..|a| + k + |pat|] == b[k..k + |pat|];
    }
  }

  /** Where `p + q` occurs, `p` occurs. */
  lemma OccursPrefix(s: string, i: nat, p: string, q: string)
    requires OccursAt(s, i, p + q)
    ensures OccursAt(s, i, p)
  {
    OccursAtSlice(s, i, p + q);
    OccursAtSlice(s, i, p);
    assert s[i..i + |p|] == s[i..i + |p + q|][..|p|];
  }

  /** A pattern holding a character the text lacks does not occur in it. */
  lemma Missing(s: string, pat: string, c: char)
    requires c in pat && c !in s
    ensures !Contains(s, pat)
  {
    if Contains(s, pat) {
      var k :| 0 <= k <= |s| && OccursAt(s, k, pat);
      OccursAtSlice(s, k, pat);
    }
  }

  /** A pattern longer than the text does not occur in it. */
  lemma TooLong(s: string, pat: string)
    requires |s| < |pat|
    ensures !Contains(s, pat)
  {
    forall k | 0 <= k <= |s| ensures !OccursAt(s, k, pat) {
      OccursAtSlice(s, k, pat);
    }
  }

  /** The rule `/pat/g` with replacement `rep`, `pat` taken literally. */
  function Literal(pat: string, rep: string): Matcher {
    (s: string, i: nat) => if OccursAt(s, i, pat) then Some(Hit(|pat|, rep)) else None
  }

  /**
   * `s.replace(new RegExp(escapeRegex(pat), 'g'), rep)`. An empty `pat` matches the empty
   * string before every character and at the end, so `rep` is inserted everywhere.
   */
  function ReplaceAll(s: string, pat: string, rep: string): string {
    ReplaceGlobal(s, Literal(pat, rep))
  }

  lemma LiteralHit(s: string, pat: string, rep: string, j: nat)
    ensures ValidHit(s, Literal(pat, rep), j) <==> j <= |s| && OccursAt(s, j, pat)
    ensures ValidHit(s, Literal(pat, rep), j) ==> Literal(pat, rep)(s, j) == Some(Hit(|pat|, rep))
  {
    OccursAtSlice(s, j, pat);
  }

  /** A rule whose every match is replaced by text of the same, non-zero length keeps the length. */
  lemma {:induction false} SameLength(s: string, m: Matcher, i: nat)
    requires i <= |s|
    requires forall j :: i <= j <= |s| && ValidHit(s, m, j) ==>
               0 < m(s, j).value.len == |m(s, j).value.out|
    ensures |ReplaceFrom(s, m, i)| == |s| - i
    decreases |s| - i
  {
    if ValidHit(s, m, i) {
      SameLength(s, m, i + m(s, i).value.len);
    } else if i < |s| {
      SameLength(s, m, i + 1);
    }
  }

  /** A rule replacing single characters by single characters works character by character. */
  lemma {:induction false} Pointwise(s: string, m: Matcher, i: nat)
    requires i <= |s|
    requires forall j :: i <= j <= |s| && ValidHit(s, m, j) ==>
               m(s, j).value.len == 1 && |m(s, j).value.out| == 1
    ensures |ReplaceFrom(s, m, i)| == |s| - i
    ensures forall k :: i <= k < |s| ==>
      ReplaceFrom(s, m, i)[k - i] == if ValidHit(s, m, k) then m(s, k).value.out[0] else s[k]
    decreases |s| - i
  {
    if i < |s| {
      Pointwise(s, m, i + 1);
      var rest := ReplaceFrom(s, m, i + 1);
      var head := if ValidHit(s, m, i) then m(s, i).value.out else [s[i]];
      assert ReplaceFrom(s, m, i) == head + rest;
    } else {
      assert !ValidHit(s, m, i);
    }
  }

  /** Replacing a pattern by itself changes nothing, the empty pattern included. */
  lemma {:induction false} ReplaceByItself(s: string, pat: string, i: nat)
    requires i <= |s|
    ensures ReplaceFrom(s, Literal(pat, pat), i) == s[i..]
    decreases |s| - i
  {
    LiteralHit(s, pat, pat, i);
    if ValidHit(s, Literal(pat, pat), i) && pat != [] {
      OccursAtSlice(s, i, pat);
      ReplaceByItself(s, pat, i + |pat|);
      assert s[i..] == s[i..i + |pat|] + s[i + |pat|..];
    } else if i < |s| {
      ReplaceByItself(s, pat, i + 1);
      assert s[i..] == [s[i]] + s[i + 1..];
    }
  }

  /** Replacing a pattern by a replacement of the same non-zero length keeps the length. */
  lemma ReplaceAllSameLength(s: string, pat: string, rep: string)
    requires 0 < |pat| == |rep|
    ensures |ReplaceAll(s, pat, rep)| == |s|
  {
    forall j | 0 <= j <= |s| && ValidHit(s, Literal(pat, rep), j)
      ensures 0 < Literal(pat, rep)(s, j).value.len == |Literal(pat, rep)(s, j).value.out|
    {
      LiteralHit(s, pat, rep, j);
    }
    SameLength(s, Literal(pat, rep), 0);
  }

  /** A replacement that is not longer than its pattern never lengthens the text. */
  lemma ReplaceAllNotLonger(s: string, pat: string, rep: string)
    requires |rep| <= |pat|
    ensures |ReplaceAll(s, pat, rep)| <= |s|
  {
    forall j | 0 <= j <= |s| && ValidHit(s, Literal(pat, rep), j)
      ensures |Literal(pat, rep)(s, j).value.out| <= Literal(pat, rep)(s, j).value.len
    {
      LiteralHit(s, pat, rep, j);
    }
    NotLonger(s, Literal(pat, rep), 0);
  }

  /** A pattern that does not occur leaves the text unchanged (the empty pattern excepted). */
  lemma ReplaceAllAbsent(s: string, pat: string, rep: string)
    requires pat != [] && !Contains(s, pat)
    ensures ReplaceAll(s, pat, rep) == s
  {
    forall j | 0 <= j <= |s| ensures !ValidHit(s, Literal(pat, rep), j) {
      LiteralHit(s, pat, rep, j);
    }
    NoHitIdentity(s, Literal(pat, rep), 0);
  }

  /** Deleting an empty pattern, or replacing it by itself, changes nothing. */
  lemma {:induction false} ReplaceEmptyByEmpty(s: string, i: nat)
    requires i <= |s|
    ensures ReplaceFrom(s, Literal([], []), i) == s[i..]
    decreases |s| - i
  {
    assert ValidHit(s, Literal([], []), i);
    if i < |s| {
      ReplaceEmptyByEmpty(s, i + 1);
      assert s[i..] == [s[i]] + s[i + 1..];
    }
  }

  /** A strictly shorter replacement of a pattern that occurs strictly shortens the text. */
  lemma ReplaceAllShorter(s: string, pat: string, rep: string)
    requires |rep| < |pat| && Contains(s, pat)
    ensures |ReplaceAll(s, pat, rep)| < |s|
  {
    var j :| 0 <= j <= |s| && OccursAt(s, j, pat);
    forall k | 0 <= k <= |s| && ValidHit(s, Literal(pat, rep), k)
      ensures |Literal(pat, rep)(s, k).value.out| < Literal(pat, rep)(s, k).value.len
    {
      LiteralHit(s, pat, rep, k);
    }
    LiteralHit(s, pat, rep, j);
    Shorter(s, Literal(pat, rep), 0, j);
  }

  // ---------------------------------------------------------------------------
  // escapeRegex

  /** The characters `escapeRegex` puts a backslash before: `.*+?^${}()|[]\`. */
  predicate IsRegexSyntax(c: char) {
    c in ".*+?^${}()|[]\\"
  }

  /** `escapeRegex` of the dictionary-backed passes: `\` before every syntax character. */
  function EscapeRegex(s: string): string {
    if s == [] then []
    else (if IsRegexSyntax(s[0]) then ['\\', s[0]] else [s[0]]) + EscapeRegex(s[1..])
  }

  /**
   * How a JavaScript RegExp reads a pattern made only of plain characters and
   * backslash-escaped syntax characters: the literal text it matches, or None when
   * the pattern uses any regular-expression syntax.
   */
  function PatternLiteral(p: string): Option<string> {
    if p == [] then Some([])
    else if p[0] == '\\' then
      if |p| >= 2 && IsRegexSyntax(p[1]) then
        match PatternLiteral(p[2..])
        case Some(rest) => Some([p[1]] + rest)
        case None => None
      else None
    else if IsRegexSyntax(p[0]) then None
    else
      match PatternLiteral(p[1..])
      case Some(rest) => Some([p[0]] + rest)
      case None => None
  }

  /** The escaped key compiles to a pattern matching exactly the key: the passes' rules are literal. */
  lemma {:induction false} EscapeRegexIsLiteral(s: string)
    ensures PatternLiteral(EscapeRegex(s)) == Some(s)
  {
    if s != [] {
      EscapeRegexIsLiteral(s[1..]);
      var e := EscapeRegex(s);
      if IsRegexSyntax(s[0]) {
        assert e[2..] == EscapeRegex(s[1..]);
      } else {
        assert e[1..] == EscapeRegex(s[1..]);
      }
      assert s == [s[0]] + s[1..];
    }
  }

  // ---------------------------------------------------------------------------
  // split and join

  /**
   * `s.split(/rule/)` from a piece that began at `p`, searching at `q`; with `keep`, the
   * rule has one capture group equal to the whole match, which `split` puts between
   * the pieces. Empty matches never split (none of the source's split rules has one).
   */
  function SplitFrom(s: string, m: Matcher, keep: bool, p: nat, q: nat): (parts: seq<string>)
    requires p <= q <= |s|
    ensures |parts| >= 1
    decreases |s| - q
  {
    if q == |s| then [s[p..]]
    else if ValidHit(s, m, q) && m(s, q).value.len > 0 then
      var h := m(s, q).value;
      [s[p..q]] + (if keep then [h.out] else []) + SplitFrom(s, m, keep, q + h.len, q + h.len)
    else SplitFrom(s, m, keep, p, q + 1)
  }

  /** The search for a separator passes over a stretch without matches. */
  lemma {:induction false} SplitSkip(s: string, m: Matcher, keep: bool, p: nat, q: nat, k: nat)
    requires p <= q <= k <= |s|
    requires forall j :: q <= j < k ==> !ValidHit(s, m, j)
    ensures SplitFrom(s, m, keep, p, q) == SplitFrom(s, m, keep, p, k)
    decreases k - q
  {
    if q < k {
      SplitSkip(s, m, keep, p, q + 1, k);
    }
  }

  function Split(s: string, m: Matcher, keep: bool): seq<string> {
    SplitFrom(s, m, keep, 0, 0)
  }

  /** `parts.join(sep)`. */
  function Join(parts: seq<string>, sep: string): string {
    if parts == [] then []
    else if |parts| == 1 then parts[0]
    else parts[0] + sep + Join(parts[1..], sep)
  }

  /** The number of characters of `s` satisfying `p`. */
  function Count(s: string, p: char -> bool): (n: nat)
    ensures n <= |s|
  {
    if s == [] then 0 else (if p(s[0]) then 1 else 0) + Count(s[1..], p)
  }

  /** The characters of `s` not satisfying `p`, in order (`s.replace(/[p]/g, '')`). */
  function Remove(s: string, p: char -> bool): (r: string)
    ensures |r| == |s| - Count(s, p)
  {
    if s == [] then [] else (if p(s[0]) then [] else [s[0]]) + Remove(s[1..], p)
  }

  /** The end of the run of `p`-characters that starts at `i`. */
  function RunEnd(s: string, i: nat, p: char -> bool): (j: nat)
    requires i <= |s|
    ensures i <= j <= |s|
    ensures forall k :: i <= k < j ==> p(s[k])
    ensures j < |s| ==> !p(s[j])
    decreases |s| - i
  {
    if i < |s| && p(s[i]) then RunEnd(s, i + 1, p) else i
  }

  /** A run that ends where `p` first fails is the run `RunEnd` finds. */
  lemma {:induction false} RunEndAt(s: string, i: nat, j: nat, p: char -> bool)
    requires i <= j <= |s|
    requires forall k :: i <= k < j ==> p(s[k])
    requires j < |s| ==> !p(s[j])
    ensures RunEnd(s, i, p) == j
    decreases j - i
  {
    if i < j {
      RunEndAt(s, i + 1, j, p);
    }
  }

  lemma {:induction false} RemoveConcat(a: string, b: string, p: char -> bool)
    ensures Remove(a + b, p) == Remove(a, p) + Remove(b, p)
  {
    if a == [] {
      assert a + b == b;
    } else {
      assert (a + b)[1..] == a[1..] + b;
      RemoveConcat(a[1..], b, p);
    }
  }

  /**
   * A rule whose every match is replaced by the match with some `p`-characters taken out
   * changes nothing but `p`-characters.
   */
  predicate RemovesOnly(s: string, m: Matcher, p: char -> bool, j: nat) {
    ValidHit(s, m, j) ==>
      m(s, j).value.len > 0 && Remove(m(s, j).value.out, p) == Remove(s[j..j + m(s, j).value.len], p)
  }

  lemma {:induction false} OnlyRemoves(s: string, m: Matcher, p: char -> bool, i: nat)
    requires i <= |s|
    requires forall j :: i <= j <= |s| ==> RemovesOnly(s, m, p, j)
    ensures Remove(ReplaceFrom(s, m, i), p) == Remove(s[i..], p)
    decreases |s| - i
  {
    if ValidHit(s, m, i) {
      assert RemovesOnly(s, m, p, i);
      OnlyRemoves(s, m, p, i + m(s, i).value.len);
      RemovedHit(s, m, p, i);
    } else if i < |s| {
      OnlyRemoves(s, m, p, i + 1);
      RemovedMiss(s, m, p, i);
    }
  }

  lemma RemovedHit(s: string, m: Matcher, p: char -> bool, i: nat)
    requires ValidHit(s, m, i) && RemovesOnly(s, m, p, i)
    requires Remove(ReplaceFrom(s, m, i + m(s, i).value.len), p) == Remove(s[i + m(s, i).value.len..], p)
    ensures Remove(ReplaceFrom(s, m, i), p) == Remove(s[i..], p)
  {
    var h := m(s, i).value;
    var rest := ReplaceFrom(s, m, i + h.len);
    HitStep(s, m, i);
    RemoveConcat(h.out, rest, p);
    assert s[i..] == s[i..i + h.len] + s[i + h.len..];
    RemoveConcat(s[i..i + h.len], s[i + h.len..], p);
  }

  lemma RemovedMiss(s: string, m: Matcher, p: char -> bool, i: nat)
    requires i < |s| && !ValidHit(s, m, i)
    requires Remove(ReplaceFrom(s, m, i + 1), p) == Remove(s[i + 1..], p)
    ensures Remove(ReplaceFrom(s, m, i), p) == Remove(s[i..], p)
  {
    var rest := ReplaceFrom(s, m, i + 1);
    assert ReplaceFrom(s, m, i) == [s[i]] + rest;
    RemoveConcat([s[i]], rest, p);
    assert s[i..] == [s[i]] + s[i + 1..];
    RemoveConcat([s[i]], s[i + 1..], p);
  }

  // ---------------------------------------------------------------------------
  // Whitespace rules shared by several passes

  /** `/([p])\s+([q])/g` replaced by `'$1$2'`: the whitespace between the two is dropped. */
  function Squeeze(p: char -> bool, q: char -> bool): Matcher {
    (s: string, i: nat) =>
      if i < |s| && p(s[i]) && i + 1 < |s| && Chars.IsSpace(s[i + 1]) then
        var j := RunEnd(s, i + 1, Chars.IsSpace);
        if j < |s| && q(s[j]) then Some(Hit(j + 1 - i, [s[i], s[j]])) else None
      else None
  }

  /** `/\s+([q])/g` replaced by `'$1'`: whitespace before a `q`-character is dropped. */
  function SpaceBefore(q: char -> bool): Matcher {
    (s: string, i: nat) =>
      if i < |s| && Chars.IsSpace(s[i]) then
        var j := RunEnd(s, i, Chars.IsSpace);
        if j < |s| && q(s[j]) then Some(Hit(j + 1 - i, [s[j]])) else None
      else None
  }

  /** `/([p])\s+/g` replaced by `'$1'`: whitespace after a `p`-character is dropped. */
  function SpaceAfter(p: char -> bool): Matcher {
    (s: string, i: nat) =>
      if i < |s| && p(s[i]) && i + 1 < |s| && Chars.IsSpace(s[i + 1]) then
        Some(Hit(RunEnd(s, i + 1, Chars.IsSpace) - i, [s[i]]))
      else None
  }

  /** `/c{min,}/g` for a character class `p`: a run of at least `min` is replaced by `out`. */
  function Run(p: char -> bool, min: nat, out: string): Matcher {
    (s: string, i: nat) =>
      if i < |s| && p(s[i]) && RunEnd(s, i, p) - i >= min then Some(Hit(RunEnd(s, i, p) - i, out))
      else None
  }

  /** A run rule whose replacement is no longer than its shortest run never lengthens the text. */
  lemma RunNotLonger(s: string, p: char -> bool, min: nat, out: string)
    requires |out| <= min
    ensures |ReplaceGlobal(s, Run(p, min, out))| <= |s|
  {
    NotLonger(s, Run(p, min, out), 0);
  }

  /** No run of `n` or more `p`-characters. */
  predicate NoRunOf(s: string, p: char -> bool, n: nat) {
    forall k :: 0 <= k < |s| ==> RunEnd(s, k, p) - k < n
  }

  /**
   * After `/c{2,}/g` with a replacement free of adjacent `p`-pairs, no two `p`-characters
   * are adjacent: every run of two or more was replaced, and the character after a run
   * is not in the class.
   */
  lemma RunLeavesNoPair(s: string, p: char -> bool, out: string)
    requires out != [] && NoPair(out, p, p)
    ensures NoPair(ReplaceGlobal(s, Run(p, 2, out)), p, p)
  {
    var m := Run(p, 2, out);
    var g := (t: string, k: nat) => k < |t| && p(t[k]);
    forall k | 0 <= k < |s| && !ValidHit(s, m, k)
      ensures !(p(s[k]) && g(s, k + 1))
    {
    }
    PairFree(s, m, p, p, g, 0);
  }

  /** A run rule leaves text without such runs unchanged. */
  lemma RunAbsent(s: string, p: char -> bool, min: nat, out: string)
    requires NoRunOf(s, p, min)
    ensures ReplaceGlobal(s, Run(p, min, out)) == s
  {
    NoHitIdentity(s, Run(p, min, out), 0);
  }

  /** The whitespace rules only ever delete whitespace, and strictly shorten the text when they match. */
  lemma SqueezeHit(s: string, p: char -> bool, q: char -> bool, j: nat)
    requires ValidHit(s, Squeeze(p, q), j)
    ensures Squeeze(p, q)(s, j).value.len > 2 == |Squeeze(p, q)(s, j).value.out|
    ensures Remove(Squeeze(p, q)(s, j).value.out, Chars.IsSpace)
            == Remove(s[j..j + Squeeze(p, q)(s, j).value.len], Chars.IsSpace)
  {
    var e := RunEnd(s, j + 1, Chars.IsSpace);
    SqueezeValue(s, p, q, j);
    Bracketing(s, j, e);
    RunAllSpace(s, j + 1);
    RemoveAround(s[j], s[j + 1..e], s[e]);
  }

  lemma SqueezeValue(s: string, p: char -> bool, q: char -> bool, j: nat)
    requires ValidHit(s, Squeeze(p, q), j)
    ensures var e := RunEnd(s, j + 1, Chars.IsSpace);
      j + 1 < e < |s| && Squeeze(p, q)(s, j).value == Hit(e + 1 - j, [s[j], s[e]])
  {
  }

  lemma Bracketing(s: string, j: nat, e: nat)
    requires j < e < |s|
    ensures s[j..e + 1] == [s[j]] + s[j + 1..e] + [s[e]]
  {
  }

  /** The run `RunEnd` finds is whitespace throughout. */
  lemma RunAllSpace(s: string, i: nat)
    requires i <= |s|
    ensures Chars.AllSpace(s[i..RunEnd(s, i, Chars.IsSpace)])
  {
    var e := RunEnd(s, i, Chars.IsSpace);
    forall k | 0 <= k < e - i ensures Chars.IsSpace(s[i..e][k]) {
      assert s[i..e][k] == s[i + k];
    }
  }

  /** Whitespace between two other characters is all that `Remove` drops from them. */
  lemma RemoveAround(x: char, mid: string, y: char)
    requires Chars.AllSpace(mid)
    ensures Remove([x] + mid + [y], Chars.IsSpace) == Remove([x, y], Chars.IsSpace)
  {
    RemoveConcat([x] + mid, [y], Chars.IsSpace);
    RemoveConcat([x], mid, Chars.IsSpace);
    RemoveAllSpace(mid);
    assert [x, y] == [x] + [y];
    RemoveConcat([x], [y], Chars.IsSpace);
  }

  lemma SpaceBeforeHit(s: string, q: char -> bool, j: nat)
    requires forall c :: q(c) ==> !Chars.IsSpace(c)
    requires ValidHit(s, SpaceBefore(q), j)
    ensures SpaceBefore(q)(s, j).value.len > 1 == |SpaceBefore(q)(s, j).value.out|
    ensures Remove(SpaceBefore(q)(s, j).value.out, Chars.IsSpace)
            == Remove(s[j..j + SpaceBefore(q)(s, j).value.len], Chars.IsSpace)
  {
    var e := RunEnd(s, j, Chars.IsSpace);
    assert s[j..e + 1] == s[j..e] + [s[e]];
    RemoveConcat(s[j..e], [s[e]], Chars.IsSpace);
    RemoveAllSpace(s[j..e]);
  }

  lemma SpaceAfterHit(s: string, p: char -> bool, j: nat)
    requires forall c :: p(c) ==> !Chars.IsSpace(c)
    requires ValidHit(s, SpaceAfter(p), j)
    ensures SpaceAfter(p)(s, j).value.len > 1 == |SpaceAfter(p)(s, j).value.out|
    ensures Remove(SpaceAfter(p)(s, j).value.out, Chars.IsSpace)
            == Remove(s[j..j + SpaceAfter(p)(s, j).value.len], Chars.IsSpace)
  {
    var e := RunEnd(s, j + 1, Chars.IsSpace);
    assert s[j..e] == [s[j]] + s[j + 1..e];
    RemoveConcat([s[j]], s[j + 1..e], Chars.IsSpace);
    RemoveAllSpace(s[j + 1..e]);
  }

  lemma {:induction false} RemoveAllSpace(s: string)
    requires Chars.AllSpace(s)
    ensures Remove(s, Chars.IsSpace) == []
  {
    if s != [] {
      RemoveAllSpace(s[1..]);
    }
  }
}
