/**
 * Removal of whitespace between ideographs and between an ideograph and the full-width
 * punctuation next to it, repeated until nothing changes.
 */
module RemoveSpaces {
  import opened Wrappers
  import opened Chars
  import opened Rewrite

  /** The three rules of one pass, in order. */
  function Rules(): seq<Matcher> {
    [Squeeze(IsHanFull, IsHanFull), Squeeze(IsHanFull, IsClosingMark), Squeeze(IsOpeningMark, IsHanFull)]
  }

  /** One pass of the loop body. */
  function Pass(s: string): string {
    ReplaceGlobal(ReplaceGlobal(ReplaceGlobal(s, Rules()[0]), Rules()[1]), Rules()[2])
  }

  lemma SqueezeFacts(s: string, p: char -> bool, q: char -> bool, j: nat)
    requires forall c :: p(c) || q(c) ==> !IsSpace(c)
    requires ValidHit(s, Squeeze(p, q), j)
    ensures Squeeze(p, q)(s, j).value.len > |Squeeze(p, q)(s, j).value.out|
    ensures RemovesOnly(s, Squeeze(p, q), IsSpace, j)
  {
    SqueezeHit(s, p, q, j);
  }

  lemma RuleFacts(k: nat, s: string, j: nat)
    requires k < 3 && ValidHit(s, Rules()[k], j)
    ensures Rules()[k](s, j).value.len > |Rules()[k](s, j).value.out|
    ensures RemovesOnly(s, Rules()[k], IsSpace, j)
  {
    var r := Rules();
    if k == 0 {
      assert r[0] == Squeeze(IsHanFull, IsHanFull);
      SqueezeFacts(s, IsHanFull, IsHanFull, j);
    } else if k == 1 {
      assert r[1] == Squeeze(IsHanFull, IsClosingMark);
      SqueezeFacts(s, IsHanFull, IsClosingMark, j);
    } else {
      assert r[2] == Squeeze(IsOpeningMark, IsHanFull);
      SqueezeFacts(s, IsOpeningMark, IsHanFull, j);
    }
  }

  /** A rule either matches nowhere and leaves the text, or matches and shortens it. */
  lemma RuleShrinks(k: nat, s: string)
    requires k < 3
    ensures ReplaceGlobal(s, Rules()[k]) == s || |ReplaceGlobal(s, Rules()[k])| < |s|
    ensures ReplaceGlobal(s, Rules()[k]) == s <==> forall j :: 0 <= j <= |s| ==> !ValidHit(s, Rules()[k], j)
    ensures Remove(ReplaceGlobal(s, Rules()[k]), IsSpace) == Remove(s, IsSpace)
  {
    var m := Rules()[k];
    forall j | 0 <= j <= |s| && ValidHit(s, m, j)
      ensures |m(s, j).value.out| < m(s, j).value.len
      ensures RemovesOnly(s, m, IsSpace, j)
    {
      RuleFacts(k, s, j);
    }
    forall j | 0 <= j <= |s| ensures RemovesOnly(s, m, IsSpace, j) {
      if ValidHit(s, m, j) {
        RuleFacts(k, s, j);
      }
    }
    OnlyRemoves(s, m, IsSpace, 0);
    if j :| 0 <= j <= |s| && ValidHit(s, m, j) {
      Shorter(s, m, 0, j);
    } else {
      NoHitIdentity(s, m, 0);
    }
  }

  /** A pass that changes the text makes it strictly shorter, and only whitespace goes. */
  lemma PassShrinks(s: string)
    ensures Pass(s) == s || |Pass(s)| < |s|
    ensures Remove(Pass(s), IsSpace) == Remove(s, IsSpace)
  {
    var a := ReplaceGlobal(s, Rules()[0]);
    var b := ReplaceGlobal(a, Rules()[1]);
    RuleShrinks(0, s);
    RuleShrinks(1, a);
    RuleShrinks(2, b);
  }

  /** Repeats the pass until it changes nothing. */
  function Settle(s: string): (r: string)
    decreases |s|
  {
    var t := Pass(s);
    if t == s then s
    else
      PassShrinks(s);
      Settle(t)
  }

  /** `removeUnnecessarySpaces(text)`. */
  function Spec(text: string): string {
    if text == [] then text else Settle(text)
  }

  /** The source's loop: passes until a pass returns what it was given. */
  method RemoveUnnecessarySpaces(text: string) returns (result: string)
    ensures result == Spec(text)
  {
    if text == [] {
      return text;
    }
    result := text;
    var prev := "";
    while result != prev
      invariant (prev == "" && result == text) || result == Pass(prev)
      invariant Settle(result) == Settle(text)
      decreases |result| + (if result != prev then 1 else 0)
    {
      prev := result;
      PassShrinks(result);
      result := Pass(result);
    }
  }

  /** After the passes, no rule of the pass matches anywhere. */
  lemma {:induction false} SettleIsStable(s: string)
    ensures Pass(Settle(s)) == Settle(s)
    decreases |s|
  {
    if Pass(s) != s {
      PassShrinks(s);
      SettleIsStable(Pass(s));
    }
  }

  /** Only whitespace is ever removed: the other characters are kept, in order. */
  lemma {:induction false} SettleKeepsText(s: string)
    ensures Remove(Settle(s), IsSpace) == Remove(s, IsSpace)
    ensures |Settle(s)| <= |s|
    decreases |s|
  {
    if Pass(s) != s {
      PassShrinks(s);
      SettleKeepsText(Pass(s));
    }
  }

  /** A text the pass leaves alone has no rule matching anywhere in it. */
  lemma StableHasNoMatch(s: string)
    requires Pass(s) == s
    ensures forall k, j :: 0 <= k < 3 && 0 <= j <= |s| ==> !ValidHit(s, Rules()[k], j)
  {
    var a := ReplaceGlobal(s, Rules()[0]);
    var b := ReplaceGlobal(a, Rules()[1]);
    RuleShrinks(0, s);
    RuleShrinks(1, a);
    RuleShrinks(2, b);
    assert a == s;
    assert b == s;
  }

  /**
   * The result of `removeUnnecessarySpaces` never has whitespace between two ideographs,
   * between an ideograph and a closing mark, or between an opening mark and an ideograph.
   */
  lemma SpecProperties(text: string, i: nat, j: nat)
    requires i + 1 < j < |Spec(text)| && AllSpace(Spec(text)[i + 1..j])
    ensures var r := Spec(text);
      !(IsHanFull(r[i]) && IsHanFull(r[j]))
      && !(IsHanFull(r[i]) && IsClosingMark(r[j]))
      && !(IsOpeningMark(r[i]) && IsHanFull(r[j]))
  {
    var r := Spec(text);
    SettleIsStable(text);
    StableHasNoMatch(r);
    NoGapInStable(r, i, j);
  }

  /** In text none of the three rules matches, no gap of whitespace separates a pair they join. */
  lemma NoGapInStable(r: string, i: nat, j: nat)
    requires i + 1 < j < |r| && AllSpace(r[i + 1..j])
    requires forall k, p :: 0 <= k < 3 && 0 <= p <= |r| ==> !ValidHit(r, Rules()[k], p)
    ensures !(IsHanFull(r[i]) && IsHanFull(r[j]))
      && !(IsHanFull(r[i]) && IsClosingMark(r[j]))
      && !(IsOpeningMark(r[i]) && IsHanFull(r[j]))
  {
    if !IsSpace(r[j]) {
      forall k | i + 1 <= k < j ensures IsSpace(r[k]) {
        assert r[i + 1..j][k - (i + 1)] == r[k];
      }
      RunEndAt(r, i + 1, j, IsSpace);
      assert !ValidHit(r, Rules()[0], i);
      assert !ValidHit(r, Rules()[1], i);
      assert !ValidHit(r, Rules()[2], i);
    }
  }

  lemma SpecKeepsText(text: string)
    ensures Remove(Spec(text), IsSpace) == Remove(text, IsSpace)
    ensures |Spec(text)| <= |text|
  {
    if text != [] {
      SettleKeepsText(text);
    }
  }

  lemma SpecIdempotent(text: string)
    ensures Spec(Spec(text)) == Spec(text)
  {
    if text != [] {
      SettleIsStable(text);
    }
  }

  /** Text without any ideograph of U+4E00..U+9FFF is returned unchanged. */
  lemma NoIdeographUnchanged(text: string)
    requires forall k :: 0 <= k < |text| ==> !IsHanFull(text[k])
    ensures Spec(text) == text
  {
    var r := Rules();
    assert r[0] == Squeeze(IsHanFull, IsHanFull);
    assert r[1] == Squeeze(IsHanFull, IsClosingMark);
    assert r[2] == Squeeze(IsOpeningMark, IsHanFull);
    forall k | 0 <= k < 3 ensures forall j :: 0 <= j <= |text| ==> !ValidHit(text, r[k], j) {
    }
    NoHitIdentity(text, r[0], 0);
    NoHitIdentity(text, r[1], 0);
    NoHitIdentity(text, r[2], 0);
    assert Pass(text) == text;
  }

  /** The case the loop exists for: one pass leaves "今日 透過", the second joins the rest. */
  lemma TwoPasses()
    ensures Spec("今 日 透過") == "今日透過"
  {
    FirstPass();
    SecondPass();
    ThirdPass();
  }

  lemma FirstPass()
    ensures Pass("今 日 透過") == "今日 透過"
  {
    var s := "今 日 透過";
    var m := Squeeze(IsHanFull, IsHanFull);
    assert s[5] == '過' && s[4] == '透' && s[3] == ' ' && s[2] == '日' && s[1] == ' ' && s[0] == '今';
    assert !IsSpace(s[5]) && !IsHanFull(s[3]);
    assert m(s, 5) == None;
    assert m(s, 4) == None;
    assert m(s, 3) == None;
    assert ReplaceFrom(s, m, 6) == [];
    assert ReplaceFrom(s, m, 5) == ['過'];
    assert ReplaceFrom(s, m, 4) == ['透'] + ['過'];
    assert ReplaceFrom(s, m, 3) == [' '] + ['透', '過'];
    assert RunEnd(s, 1, IsSpace) == 2;
    assert IsHanFull(s[0]) && IsHanFull(s[2]) && IsSpace(s[1]);
    assert m(s, 0) == Some(Hit(3, ['今', '日']));
    assert ReplaceFrom(s, m, 0) == ['今', '日'] + [' ', '透', '過'];
    assert ['今', '日'] + [' ', '透', '過'] == "今日 透過";
    NoMatchBeyondHan("今日 透過");
  }

  lemma SecondPass()
    ensures Pass("今日 透過") == "今日透過"
  {
    var s := "今日 透過";
    var m := Squeeze(IsHanFull, IsHanFull);
    assert s[4] == '過' && s[3] == '透' && s[2] == ' ' && s[1] == '日' && s[0] == '今';
    assert !IsSpace(s[1]);
    assert m(s, 4) == None;
    assert m(s, 0) == None;
    assert ReplaceFrom(s, m, 5) == [];
    assert ReplaceFrom(s, m, 4) == ['過'];
    assert RunEnd(s, 2, IsSpace) == 3;
    assert IsHanFull(s[1]) && IsHanFull(s[3]) && IsSpace(s[2]);
    assert m(s, 1) == Some(Hit(3, ['日', '透']));
    assert ReplaceFrom(s, m, 1) == ['日', '透'] + ['過'];
    assert ReplaceFrom(s, m, 0) == ['今'] + ['日', '透', '過'];
    assert ['今'] + ['日', '透', '過'] == "今日透過";
    NoMatchBeyondHan("今日透過");
  }

  lemma ThirdPass()
    ensures Pass("今日透過") == "今日透過"
  {
    NoSpaceNoMatch("今日透過", Squeeze(IsHanFull, IsHanFull));
    NoMatchBeyondHan("今日透過");
  }

  /** Text made of ideographs and single spaces between them has nothing for rules 2 and 3. */
  lemma NoMatchBeyondHan(s: string)
    requires forall k :: 0 <= k < |s| ==> IsHanFull(s[k]) || s[k] == ' '
    ensures ReplaceGlobal(s, Rules()[1]) == s
    ensures ReplaceGlobal(ReplaceGlobal(s, Rules()[1]), Rules()[2]) == s
  {
    var r := Rules();
    assert r[1] == Squeeze(IsHanFull, IsClosingMark);
    assert r[2] == Squeeze(IsOpeningMark, IsHanFull);
    forall j | 0 <= j <= |s| ensures !ValidHit(s, r[1], j) && !ValidHit(s, r[2], j) {
      if j + 1 < |s| && IsSpace(s[j + 1]) {
        var e := RunEnd(s, j + 1, IsSpace);
        assert e < |s| ==> !IsClosingMark(s[e]);
      }
    }
    NoHitIdentity(s, r[1], 0);
    NoHitIdentity(s, r[2], 0);
  }

  lemma NoSpaceNoMatch(s: string, m: Matcher)
    requires m == Squeeze(IsHanFull, IsHanFull)
    requires forall k :: 0 <= k < |s| ==> !IsSpace(s[k])
    ensures ReplaceGlobal(s, m) == s
  {
    NoHitIdentity(s, m, 0);
  }
}
