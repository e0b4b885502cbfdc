/**
 * What the whitespace rules guarantee about their output: after `\s+([q])` → `$1` no
 * whitespace precedes a `q`-character, after `([p])\s+` → `$1` none follows a `p`-character,
 * after `\s{2,}` → ' ' no two whitespace characters are adjacent; and which later rules
 * and `trim` keep each guarantee.
 */
module Spacing {
  import opened Chars
  import opened Rewrite

  /** Characters that are never whitespace. */
  predicate Solid(p: char -> bool) {
    forall c :: p(c) ==> !IsSpace(c)
  }

  lemma SpaceBeforeClears(s: string, q: char -> bool)
    requires Solid(q)
    ensures NoPair(ReplaceGlobal(s, SpaceBefore(q)), IsSpace, q)
  {
    var m := SpaceBefore(q);
    var g := (t: string, k: nat) => k < |t| && (q(t[k]) || ValidHit(t, m, k));
    forall k | 0 <= k < |s| && !ValidHit(s, m, k)
      ensures (q(s[k]) ==> g(s, k)) && !(IsSpace(s[k]) && g(s, k + 1))
    {
      if IsSpace(s[k]) && k + 1 < |s| {
        if q(s[k + 1]) {
          RunEndAt(s, k + 1, k + 1, IsSpace);
          assert RunEnd(s, k, IsSpace) == RunEnd(s, k + 1, IsSpace);
        } else if ValidHit(s, m, k + 1) {
          assert RunEnd(s, k, IsSpace) == RunEnd(s, k + 1, IsSpace);
        }
      }
    }
    PairFree(s, m, IsSpace, q, g, 0);
  }

  lemma SpaceAfterClears(s: string, p: char -> bool)
    requires Solid(p)
    ensures NoPair(ReplaceGlobal(s, SpaceAfter(p)), p, IsSpace)
  {
    var m := SpaceAfter(p);
    var g := (t: string, k: nat) => k < |t| && IsSpace(t[k]) && !ValidHit(t, m, k);
    PairFree(s, m, p, IsSpace, g, 0);
  }

  lemma RunClears(s: string)
    ensures NoPair(ReplaceGlobal(s, Run(IsSpace, 2, " ")), IsSpace, IsSpace)
  {
    RunLeavesNoPair(s, IsSpace, " ");
  }

  /** Dropping whitespace after `p`-characters keeps any "no whitespace before a solid `q`" guarantee. */
  lemma SpaceAfterKeeps(s: string, p: char -> bool, q: char -> bool)
    requires Solid(p) && (Solid(q) || q == IsSpace)
    requires NoPair(s, IsSpace, q)
    ensures NoPair(ReplaceGlobal(s, SpaceAfter(p)), IsSpace, q)
  {
    var m := SpaceAfter(p);
    var g := (t: string, k: nat) => k < |t| && q(t[k]);
    forall j | 0 <= j < |s| && ValidHit(s, m, j)
      ensures var h := m(s, j).value; !(IsSpace(h.out[|h.out| - 1]) && g(s, j + h.len))
    {
    }
    PairFree(s, m, IsSpace, q, g, 0);
  }

  /** Dropping whitespace before `q`-characters keeps the guarantees about other solid neighbours. */
  lemma SpaceBeforeKeeps(s: string, q: char -> bool, p: char -> bool, r: char -> bool)
    requires Solid(q)
    requires (p == IsSpace && (Solid(r) || r == IsSpace)) || (Solid(p) && r == IsSpace)
    requires NoPair(s, p, r)
    ensures NoPair(ReplaceGlobal(s, SpaceBefore(q)), p, r)
  {
    var m := SpaceBefore(q);
    var g := (t: string, k: nat) => k < |t| && (if ValidHit(t, m, k) then r(t[RunEnd(t, k, IsSpace)]) else r(t[k]));
    forall j | 0 <= j < |s| && ValidHit(s, m, j)
      ensures var h := m(s, j).value; !(p(h.out[|h.out| - 1]) && g(s, j + h.len))
    {
    }
    forall k | 0 <= k < |s| && !ValidHit(s, m, k)
      ensures !(p(s[k]) && g(s, k + 1))
    {
    }
    PairFree(s, m, p, r, g, 0);
  }

  /** `trim` keeps every adjacency guarantee, since it returns a piece of its input. */
  lemma TrimKeeps(s: string, p: char -> bool, q: char -> bool)
    requires NoPair(s, p, q)
    ensures NoPair(Trim(s), p, q)
  {
    var a := LeadingSpaces(s);
    var t := Trim(s);
    forall k | 0 <= k < |t| - 1 ensures !(p(t[k]) && q(t[k + 1])) {
      assert t[k] == s[a + k] && t[k + 1] == s[a + k + 1];
    }
  }

  // ---------------------------------------------------------------------------
  // The whitespace rules change nothing but whitespace

  lemma SqueezeOnlySpaces(s: string, p: char -> bool, q: char -> bool)
    requires Solid(p) && Solid(q)
    ensures Remove(ReplaceGlobal(s, Squeeze(p, q)), IsSpace) == Remove(s, IsSpace)
  {
    forall j | 0 <= j <= |s| ensures RemovesOnly(s, Squeeze(p, q), IsSpace, j) {
      if ValidHit(s, Squeeze(p, q), j) {
        SqueezeHit(s, p, q, j);
      }
    }
    OnlyRemoves(s, Squeeze(p, q), IsSpace, 0);
    assert s[0..] == s;
  }

  lemma SpaceBeforeOnlySpaces(s: string, q: char -> bool)
    requires Solid(q)
    ensures Remove(ReplaceGlobal(s, SpaceBefore(q)), IsSpace) == Remove(s, IsSpace)
  {
    forall j | 0 <= j <= |s| ensures RemovesOnly(s, SpaceBefore(q), IsSpace, j) {
      if ValidHit(s, SpaceBefore(q), j) {
        SpaceBeforeHit(s, q, j);
      }
    }
    OnlyRemoves(s, SpaceBefore(q), IsSpace, 0);
    assert s[0..] == s;
  }

  lemma SpaceAfterOnlySpaces(s: string, p: char -> bool)
    requires Solid(p)
    ensures Remove(ReplaceGlobal(s, SpaceAfter(p)), IsSpace) == Remove(s, IsSpace)
  {
    forall j | 0 <= j <= |s| ensures RemovesOnly(s, SpaceAfter(p), IsSpace, j) {
      if ValidHit(s, SpaceAfter(p), j) {
        SpaceAfterHit(s, p, j);
      }
    }
    OnlyRemoves(s, SpaceAfter(p), IsSpace, 0);
    assert s[0..] == s;
  }

  /** `\s{2,}` → `out` for an all-whitespace `out`. */
  lemma RunOnlySpaces(s: string, out: string)
    requires AllSpace(out)
    ensures Remove(ReplaceGlobal(s, Run(IsSpace, 2, out)), IsSpace) == Remove(s, IsSpace)
  {
    var m := Run(IsSpace, 2, out);
    forall j | 0 <= j <= |s| ensures RemovesOnly(s, m, IsSpace, j) {
      if ValidHit(s, m, j) {
        RemoveAllSpace(out);
        RemoveAllSpace(s[j..j + m(s, j).value.len]);
      }
    }
    OnlyRemoves(s, m, IsSpace, 0);
    assert s[0..] == s;
  }
}
