/**
 * Diff segments between the original and the processed text: the mapping from the diff
 * library's operation codes, the change statistics, and the merging of neighbouring
 * segments of one kind.
 */
module DiffUtils {

  datatype Kind = Equal | Insert | Delete

  /** A `DiffSegment`: a run of text that is kept, inserted or deleted. */
  datatype Segment = Segment(kind: Kind, text: string)

  /** `DiffStatistics`. */
  datatype Statistics = Statistics(insertions: nat, deletions: nat, modifications: nat, totalChanges: nat)

  // ---------------------------------------------------------------------------
  // The tag mapping of `calculateDiff`

  /** The diff library's operation codes. */
  const DIFF_DELETE: int := -1
  const DIFF_EQUAL: int := 0
  const DIFF_INSERT: int := 1

  /** Delete and insert codes map to their kinds; every other code counts as equal. */
  function KindOf(op: int): (k: Kind)
    ensures k == Delete <==> op == DIFF_DELETE
    ensures k == Insert <==> op == DIFF_INSERT
  {
    if op == DIFF_DELETE then Delete else if op == DIFF_INSERT then Insert else Equal
  }

  /** The code the library uses for a kind. */
  function Code(k: Kind): int {
    match k
    case Equal => DIFF_EQUAL
    case Insert => DIFF_INSERT
    case Delete => DIFF_DELETE
  }

  /** The mapping loses nothing: each kind is recovered from its code. */
  lemma KindOfCode(k: Kind)
    ensures KindOf(Code(k)) == k
  {
  }

  /** The `map` at the end of `calculateDiff`, applied to the library's diff list. */
  function Tagged(diffs: seq<(int, string)>): (r: seq<Segment>)
    ensures |r| == |diffs|
    ensures forall i :: 0 <= i < |diffs| ==> r[i] == Segment(KindOf(diffs[i].0), diffs[i].1)
  {
    if diffs == [] then [] else [Segment(KindOf(diffs[0].0), diffs[0].1)] + Tagged(diffs[1..])
  }

  /** The tagged segments spell the library's texts in the library's order. */
  lemma {:induction false} TaggedKeepsText(diffs: seq<(int, string)>)
    ensures Concat(Tagged(diffs)) == Texts(diffs)
  {
    if diffs != [] {
      var n := |diffs| - 1;
      TaggedKeepsText(diffs[..n]);
      var r := Tagged(diffs);
      assert r[..n] == Tagged(diffs[..n]);
      assert diffs[..n] == diffs[..|diffs| - 1];
    }
  }

  /** The library's texts, in order. */
  function Texts(diffs: seq<(int, string)>): string {
    if diffs == [] then [] else Texts(diffs[..|diffs| - 1]) + diffs[|diffs| - 1].1
  }

  // ---------------------------------------------------------------------------
  // calculateStatistics

  /** The segments' texts, in order. */
  function Concat(s: seq<Segment>): string {
    if s == [] then [] else Concat(s[..|s| - 1]) + s[|s| - 1].text
  }

  /** The texts of the segments of kind `k`, in order. */
  function KindText(s: seq<Segment>, k: Kind): string {
    if s == [] then []
    else KindText(s[..|s| - 1], k) + (if s[|s| - 1].kind == k then s[|s| - 1].text else [])
  }

  /** The summed length of the texts of the segments of kind `k`. */
  function Length(s: seq<Segment>, k: Kind): nat {
    if s == [] then 0
    else Length(s[..|s| - 1], k) + (if s[|s| - 1].kind == k then |s[|s| - 1].text| else 0)
  }

  /** The number of segments that are not `equal`. */
  function Changes(s: seq<Segment>): (n: nat)
    ensures n <= |s|
    ensures n == 0 <==> forall i :: 0 <= i < |s| ==> s[i].kind == Equal
  {
    if s == [] then 0
    else
      var n := Changes(s[..|s| - 1]);
      assert forall i :: 0 <= i < |s| - 1 ==> s[..|s| - 1][i] == s[i];
      n + (if s[|s| - 1].kind != Equal then 1 else 0)
  }

  function Min(a: nat, b: nat): (m: nat)
    ensures m <= a && m <= b && (m == a || m == b)
  {
    if a < b then a else b
  }

  /** The statistics `calculateStatistics` reports for a segment list. */
  function Stats(s: seq<Segment>): (r: Statistics)
    ensures r.modifications <= r.insertions && r.modifications <= r.deletions
    ensures r.totalChanges <= |s|
  {
    var ins := Length(s, Insert);
    var del := Length(s, Delete);
    Statistics(ins, del, Min(ins, del), Changes(s))
  }

  /** The summed length is the length of the kind's text. */
  lemma {:induction false} LengthOfKindText(s: seq<Segment>, k: Kind)
    ensures Length(s, k) == |KindText(s, k)|
  {
    if s != [] {
      LengthOfKindText(s[..|s| - 1], k);
    }
  }

  /** A list with only `equal` segments, or none, has all-zero statistics. */
  lemma {:induction false} AllEqualNoChanges(s: seq<Segment>)
    requires forall i :: 0 <= i < |s| ==> s[i].kind == Equal
    ensures Stats(s) == Statistics(0, 0, 0, 0)
  {
    if s != [] {
      var p := s[..|s| - 1];
      assert forall i :: 0 <= i < |p| ==> p[i] == s[i];
      AllEqualNoChanges(p);
    }
  }

  /** `calculateStatistics`: one pass summing insert and delete lengths, then min and count. */
  method CalculateStatistics(segments: seq<Segment>) returns (stats: Statistics)
    ensures stats == Stats(segments)
  {
    var insertions: nat := 0;
    var deletions: nat := 0;
    for i := 0 to |segments|
      invariant insertions == Length(segments[..i], Insert)
      invariant deletions == Length(segments[..i], Delete)
    {
      assert segments[..i + 1][..i] == segments[..i];
      if segments[i].kind == Insert {
        insertions := insertions + |segments[i].text|;
      } else if segments[i].kind == Delete {
        deletions := deletions + |segments[i].text|;
      }
    }
    assert segments[..|segments|] == segments;
    var modifications := if insertions < deletions then insertions else deletions;
    stats := Statistics(insertions, deletions, modifications, Changes(segments));
  }

  // ---------------------------------------------------------------------------
  // mergeConsecutiveSegments

  /** One merging step: `x` extends the last merged segment when the kinds agree, else follows it. */
  function Push(r: seq<Segment>, x: Segment): (r': seq<Segment>)
    ensures |r'| <= |r| + 1 && r' != []
    ensures r'[|r'| - 1].kind == x.kind
  {
    if r != [] && r[|r| - 1].kind == x.kind then r[..|r| - 1] + [Segment(x.kind, r[|r| - 1].text + x.text)]
    else r + [x]
  }

  /** The merged list: the segments pushed one by one. */
  function Merged(s: seq<Segment>): (r: seq<Segment>)
    ensures |r| <= |s|
    ensures r == [] <==> s == []
    ensures s != [] ==> r[|r| - 1].kind == s[|s| - 1].kind
  {
    if s == [] then [] else Push(Merged(s[..|s| - 1]), s[|s| - 1])
  }

  /** The merge of a longer prefix pushes one more segment. */
  lemma MergedNext(s: seq<Segment>, i: nat)
    requires i < |s|
    ensures Merged(s[..i + 1]) == Push(Merged(s[..i]), s[i])
  {
    assert s[..i + 1][..i] == s[..i];
  }

  /** Pushing onto a list whose last segment is `current`. */
  lemma PushOnto(merged: seq<Segment>, current: Segment, x: Segment)
    ensures Push(merged + [current], x)
            == if current.kind == x.kind then merged + [current.(text := current.text + x.text)]
               else merged + [current] + [x]
  {
    assert (merged + [current])[..|merged|] == merged;
  }

  /** `mergeConsecutiveSegments`: a running `current` segment, pushed when the kind changes. */
  method MergeConsecutiveSegments(segments: seq<Segment>) returns (merged: seq<Segment>)
    ensures merged == Merged(segments)
  {
    if |segments| == 0 {
      return [];
    }
    merged := [];
    var current := segments[0];
    MergedNext(segments, 0);
    for i := 1 to |segments|
      invariant merged + [current] == Merged(segments[..i])
    {
      MergedNext(segments, i);
      merged, current := Absorb(merged, current, segments[i]);
    }
    assert segments[..|segments|] == segments;
    merged := merged + [current];
  }

  /** The loop body: extend `current` when the kinds agree, else push it and start anew. */
  method Absorb(merged: seq<Segment>, current: Segment, x: Segment) returns (merged': seq<Segment>, current': Segment)
    ensures merged' + [current'] == Push(merged + [current], x)
  {
    PushOnto(merged, current, x);
    if x.kind == current.kind {
      merged', current' := merged, current.(text := current.text + x.text);
    } else {
      merged', current' := merged + [current], x;
    }
  }

  /** No two neighbouring segments share a kind. */
  predicate NoAdjacent(r: seq<Segment>) {
    forall i :: 0 < i < |r| ==> r[i - 1].kind != r[i].kind
  }

  /** After merging, neighbouring segments always differ in kind. */
  lemma {:induction false} MergedNoAdjacent(s: seq<Segment>)
    ensures NoAdjacent(Merged(s))
  {
    if s != [] {
      MergedNoAdjacent(s[..|s| - 1]);
    }
  }

  /** Splitting off the last segment of a list. */
  lemma ConcatLast(r: seq<Segment>, y: Segment)
    ensures Concat(r + [y]) == Concat(r) + y.text
  {
    assert (r + [y])[..|r|] == r;
  }

  lemma KindTextLast(r: seq<Segment>, y: Segment, k: Kind)
    ensures KindText(r + [y], k) == KindText(r, k) + (if y.kind == k then y.text else [])
  {
    assert (r + [y])[..|r|] == r;
  }

  /** A push adds the pushed segment's text at the end. */
  lemma PushConcat(r: seq<Segment>, x: Segment)
    ensures Concat(Push(r, x)) == Concat(r) + x.text
  {
    if r != [] && r[|r| - 1].kind == x.kind {
      var q := r[..|r| - 1];
      assert r == q + [r[|r| - 1]];
      ConcatLast(q, r[|r| - 1]);
      ConcatLast(q, Segment(x.kind, r[|r| - 1].text + x.text));
    } else {
      ConcatLast(r, x);
    }
  }

  /** A push adds the pushed segment's text to its own kind's text. */
  lemma PushKindText(r: seq<Segment>, x: Segment, k: Kind)
    ensures KindText(Push(r, x), k) == KindText(r, k) + (if x.kind == k then x.text else [])
  {
    if r != [] && r[|r| - 1].kind == x.kind {
      var q := r[..|r| - 1];
      assert r == q + [r[|r| - 1]];
      KindTextLast(q, r[|r| - 1], k);
      KindTextLast(q, Segment(x.kind, r[|r| - 1].text + x.text), k);
    } else {
      KindTextLast(r, x, k);
    }
  }

  /** A push adds at most one changed segment, and none for an `equal` one. */
  lemma PushChanges(r: seq<Segment>, x: Segment)
    ensures Changes(Push(r, x)) <= Changes(r) + (if x.kind != Equal then 1 else 0)
  {
    if r != [] && r[|r| - 1].kind == x.kind {
      var q := r[..|r| - 1];
      assert r == q + [r[|r| - 1]];
      ChangesLast(q, r[|r| - 1]);
      ChangesLast(q, Segment(x.kind, r[|r| - 1].text + x.text));
    } else {
      ChangesLast(r, x);
    }
  }

  /** Merging keeps the in-order text. */
  lemma {:induction false} MergedKeepsText(s: seq<Segment>)
    ensures Concat(Merged(s)) == Concat(s)
  {
    if s != [] {
      MergedKeepsText(s[..|s| - 1]);
      PushConcat(Merged(s[..|s| - 1]), s[|s| - 1]);
    }
  }

  /** Merging keeps the text of each kind. */
  lemma {:induction false} MergedKeepsKindText(s: seq<Segment>, k: Kind)
    ensures KindText(Merged(s), k) == KindText(s, k)
  {
    if s != [] {
      MergedKeepsKindText(s[..|s| - 1], k);
      PushKindText(Merged(s[..|s| - 1]), s[|s| - 1], k);
    }
  }

  /**
   * Merging never lengthens the list and leaves insertions, deletions and
   * modifications as they were; only the count of changed segments can drop.
   */
  lemma MergedStats(s: seq<Segment>)
    ensures |Merged(s)| <= |s|
    ensures Stats(Merged(s)).insertions == Stats(s).insertions
    ensures Stats(Merged(s)).deletions == Stats(s).deletions
    ensures Stats(Merged(s)).modifications == Stats(s).modifications
    ensures Stats(Merged(s)).totalChanges <= Stats(s).totalChanges
  {
    MergedKeepsKindText(s, Insert);
    MergedKeepsKindText(s, Delete);
    LengthOfKindText(s, Insert);
    LengthOfKindText(s, Delete);
    LengthOfKindText(Merged(s), Insert);
    LengthOfKindText(Merged(s), Delete);
    MergedChanges(s);
  }

  /** Merging never adds a changed segment. */
  lemma {:induction false} MergedChanges(s: seq<Segment>)
    ensures Changes(Merged(s)) <= Changes(s)
  {
    if s != [] {
      MergedChanges(s[..|s| - 1]);
      PushChanges(Merged(s[..|s| - 1]), s[|s| - 1]);
    }
  }

  lemma ChangesLast(r: seq<Segment>, y: Segment)
    ensures Changes(r + [y]) == Changes(r) + (if y.kind != Equal then 1 else 0)
  {
    assert (r + [y])[..|r|] == r;
  }

  /** A list whose neighbours already differ in kind is its own merge, so merging is idempotent. */
  lemma {:induction false} MergeIdle(s: seq<Segment>)
    requires NoAdjacent(s)
    ensures Merged(s) == s
  {
    if s != [] {
      var p := s[..|s| - 1];
      assert NoAdjacent(p) by {
        forall i | 0 < i < |p|
          ensures p[i - 1].kind != p[i].kind
        {
          assert p[i - 1] == s[i - 1] && p[i] == s[i];
        }
      }
      MergeIdle(p);
      assert s == p + [s[|s| - 1]];
    }
  }

  lemma MergeIdempotent(s: seq<Segment>)
    ensures Merged(Merged(s)) == Merged(s)
  {
    MergedNoAdjacent(s);
    MergeIdle(Merged(s));
  }

  // ---------------------------------------------------------------------------
  // getDiffColorClass and getDiffLabel

  /** The CSS classes a segment of kind `k` is shown with. */
  function ColorClass(k: Kind): (r: string)
    ensures r == "" <==> k == Equal
  {
    match k
    case Insert => "bg-green-200 text-green-900"
    case Delete => "bg-red-200 text-red-900 line-through"
    case Equal => ""
  }

  /** The label of kind `k`. */
  function Label(k: Kind): (r: string)
    ensures |r| == 2
  {
    match k
    case Insert => "新增"
    case Delete => "刪除"
    case Equal => "相同"
  }

  /** Only kept text goes unstyled, and the three kinds are told apart by label and by style. */
  lemma PresentationDistinct(k: Kind, j: Kind)
    ensures ColorClass(k) == "" <==> k == Equal
    ensures Label(k) == Label(j) <==> k == j
    ensures ColorClass(k) == ColorClass(j) <==> k == j
  {
    if k != j {
      assert Label(k)[0] != Label(j)[0];
      assert ColorClass(k) == [] || ColorClass(j) == [] || ColorClass(k)[3] != ColorClass(j)[3];
    }
  }
}
