/**
 * Spacing between Chinese and Latin text, in the style of the pangu spacing library: a
 * straight chain of seven global replacements. Two of them put a space between an
 * ideograph and a letter or digit; the other five drop whitespace next to punctuation and
 * squeeze whitespace runs.
 */
module AddSpaces {
  import opened Wrappers
  import opened Chars
  import opened Rewrite
  import opened Spacing

  /** The marks the two spacing callbacks refuse to space next to. */
  predicate IsChinesePunctuation(c: char) {
    c in "，。！？；：、「」『』（）《》【】…—"
  }

  /** `[a-zA-Z0-9@]`, what an ideograph must not run into. */
  predicate IsWordStart(c: char) {
    IsAlnum(c) || c == '@'
  }

  /** `[，。！？；：、）」』\]\}）]`: marks no whitespace may precede. */
  predicate IsCloser(c: char) {
    IsClosingMark(c) || c == ']' || c == '}'
  }

  /** `[，。！？；：、（「『\[\{（]`: marks directly followed by a word. */
  predicate IsLeader(c: char) {
    IsSentenceMark(c) || c == '、' || IsOpener(c)
  }

  /** `[（「『\[\{（]`: marks no whitespace may follow. */
  predicate IsOpener(c: char) {
    IsOpeningMark(c) || c == '[' || c == '{'
  }

  /**
   * `/([一-龥])([a-zA-Z0-9@])/g` with its callback: the pair gets a space unless
   * the ideograph is one of the refused marks.
   */
  function HanWord(): Matcher {
    (s: string, i: nat) =>
      if i + 1 < |s| && IsHanBasic(s[i]) && IsWordStart(s[i + 1]) then
        Some(Hit(2, if IsChinesePunctuation(s[i]) then [s[i], s[i + 1]] else [s[i], ' ', s[i + 1]]))
      else None
  }

  /** `/([a-zA-Z0-9])([一-龥])/g` with its callback, the mirror image. */
  function WordHan(): Matcher {
    (s: string, i: nat) =>
      if i + 1 < |s| && IsAlnum(s[i]) && IsHanBasic(s[i + 1]) then
        Some(Hit(2, if IsChinesePunctuation(s[i + 1]) then [s[i], s[i + 1]] else [s[i], ' ', s[i + 1]]))
      else None
  }

  /** Steps 1 and 2: whitespace between a word and the punctuation around it goes. */
  function Tidied(s: string): string {
    ReplaceGlobal(ReplaceGlobal(s, Squeeze(IsAlnum, IsCloser)), Squeeze(IsLeader, IsAlnum))
  }

  /** Steps 3 and 4: ideographs and words are spaced apart. */
  function Separated(s: string): string {
    ReplaceGlobal(ReplaceGlobal(s, HanWord()), WordHan())
  }

  /** Steps 5 to 7: no whitespace inside punctuation, and no whitespace runs. */
  function Cleaned(s: string): string {
    var e := ReplaceGlobal(s, SpaceBefore(IsCloser));
    var f := ReplaceGlobal(e, SpaceAfter(IsOpener));
    ReplaceGlobal(f, Run(IsSpace, 2, " "))
  }

  /** `addSpacesAroundEnglish`. */
  function AddSpacesAroundEnglish(text: string): (r: string)
    ensures text == [] ==> r == []
  {
    if text == [] then text else Cleaned(Separated(Tidied(text)))
  }

  /** None of the classes the rules match on contains whitespace. */
  lemma ClassesSolid()
    ensures Solid(IsAlnum) && Solid(IsWordStart) && Solid(IsHanBasic)
    ensures Solid(IsCloser) && Solid(IsLeader) && Solid(IsOpener)
  {
    AlnumSolid();
    MarksSolid();
  }

  lemma AlnumSolid()
    ensures Solid(IsAlnum) && Solid(IsWordStart) && Solid(IsHanBasic)
  {
  }

  lemma MarksSolid()
    ensures Solid(IsCloser) && Solid(IsLeader) && Solid(IsOpener)
  {
  }

  // ---------------------------------------------------------------------------
  // The refused marks are never ideographs

  /** None of the refused marks lies in U+4E00–U+9FA5, so the callbacks always space. */
  lemma PunctuationIsNotHan(c: char)
    requires IsChinesePunctuation(c)
    ensures !IsHanBasic(c)
  {
  }

  lemma HanWordHit(s: string, j: nat)
    requires ValidHit(s, HanWord(), j)
    ensures HanWord()(s, j).value == Hit(2, [s[j], ' ', s[j + 1]])
  {
    if IsChinesePunctuation(s[j]) {
      PunctuationIsNotHan(s[j]);
    }
  }

  lemma WordHanHit(s: string, j: nat)
    requires ValidHit(s, WordHan(), j)
    ensures WordHan()(s, j).value == Hit(2, [s[j], ' ', s[j + 1]])
  {
    if IsChinesePunctuation(s[j + 1]) {
      PunctuationIsNotHan(s[j + 1]);
    }
  }

  // ---------------------------------------------------------------------------
  // Ideographs and words never touch

  /** After step 3 no ideograph is directly followed by a letter, digit or `@`. */
  lemma HanWordClears(s: string)
    ensures NoPair(ReplaceGlobal(s, HanWord()), IsHanBasic, IsWordStart)
  {
    var m := HanWord();
    var g := (t: string, k: nat) => k < |t| && IsWordStart(t[k]);
    forall j | 0 <= j <= |s| && ValidHit(s, m, j) ensures m(s, j).value.len > 0 {
      HanWordHit(s, j);
    }
    forall j | 0 <= j < |s| && ValidHit(s, m, j)
      ensures var h := m(s, j).value;
        h.out != [] && NoPair(h.out, IsHanBasic, IsWordStart) && (IsWordStart(h.out[0]) ==> g(s, j))
        && !(IsHanBasic(h.out[|h.out| - 1]) && g(s, j + h.len))
    {
      HanWordPiece(s, j);
    }
    forall k | 0 <= k < |s| && !ValidHit(s, m, k)
      ensures (IsWordStart(s[k]) ==> g(s, k)) && !(IsHanBasic(s[k]) && g(s, k + 1))
    {
    }
    PairFree(s, m, IsHanBasic, IsWordStart, g, 0);
  }

  /** A step 3 replacement is an ideograph, a space and a word character. */
  lemma HanWordPiece(s: string, j: nat)
    requires ValidHit(s, HanWord(), j)
    ensures var h := HanWord()(s, j).value;
      h.out == [s[j], ' ', s[j + 1]] && NoPair(h.out, IsHanBasic, IsWordStart)
      && !IsWordStart(h.out[0]) && !IsHanBasic(h.out[2])
  {
    HanWordHit(s, j);
    Spaced3(s[j], s[j + 1], IsHanBasic, IsWordStart);
  }

  /** After step 4 no letter or digit is directly followed by an ideograph. */
  lemma WordHanClears(s: string)
    ensures NoPair(ReplaceGlobal(s, WordHan()), IsAlnum, IsHanBasic)
  {
    var m := WordHan();
    var g := (t: string, k: nat) => k < |t| && IsHanBasic(t[k]);
    forall j | 0 <= j <= |s| && ValidHit(s, m, j) ensures m(s, j).value.len > 0 {
      WordHanHit(s, j);
    }
    forall j | 0 <= j < |s| && ValidHit(s, m, j)
      ensures var h := m(s, j).value;
        h.out != [] && NoPair(h.out, IsAlnum, IsHanBasic) && (IsHanBasic(h.out[0]) ==> g(s, j))
        && !(IsAlnum(h.out[|h.out| - 1]) && g(s, j + h.len))
    {
      WordHanPiece(s, j);
    }
    forall k | 0 <= k < |s| && !ValidHit(s, m, k)
      ensures (IsHanBasic(s[k]) ==> g(s, k)) && !(IsAlnum(s[k]) && g(s, k + 1))
    {
    }
    PairFree(s, m, IsAlnum, IsHanBasic, g, 0);
  }

  /** A step 4 replacement is a letter or digit, a space and an ideograph. */
  lemma WordHanPiece(s: string, j: nat)
    requires ValidHit(s, WordHan(), j)
    ensures var h := WordHan()(s, j).value;
      h.out == [s[j], ' ', s[j + 1]] && NoPair(h.out, IsAlnum, IsHanBasic)
      && !IsHanBasic(h.out[0]) && !IsAlnum(h.out[2])
  {
    WordHanHit(s, j);
    Spaced3(s[j], s[j + 1], IsAlnum, IsHanBasic);
  }

  /** A space between two visible characters separates them. */
  lemma Spaced3(x: char, y: char, p: char -> bool, q: char -> bool)
    requires !p(' ') && !q(' ')
    ensures NoPair([x, ' ', y], p, q)
  {
  }

  /** Step 4 does not undo step 3: its replacements end in the ideograph they matched. */
  lemma WordHanKeeps(s: string)
    requires NoPair(s, IsHanBasic, IsWordStart)
    ensures NoPair(ReplaceGlobal(s, WordHan()), IsHanBasic, IsWordStart)
  {
    forall j | 0 <= j <= |s| && ValidHit(s, WordHan(), j)
      ensures WordHan()(s, j).value == Hit(2, [s[j], ' ', s[j + 1]])
    {
      WordHanHit(s, j);
    }
    NoPairKeptEnds(s, WordHan(), IsHanBasic, IsWordStart);
  }

  /**
   * Steps 5 to 7 keep a guarantee about two classes of visible characters: they only
   * delete whitespace next to marks of neither class, or shrink whitespace runs.
   */
  lemma CleanedKeeps(s: string, p: char -> bool, q: char -> bool)
    requires NoPair(s, p, q)
    requires Solid(p) && Solid(q)
    requires forall c :: IsCloser(c) || IsOpener(c) ==> !p(c) && !q(c)
    ensures NoPair(Cleaned(s), p, q)
  {
    var e := ReplaceGlobal(s, SpaceBefore(IsCloser));
    forall j | 0 <= j <= |s| && ValidHit(s, SpaceBefore(IsCloser), j)
      ensures SpaceBefore(IsCloser)(s, j).value == Hit(RunEnd(s, j, IsSpace) + 1 - j, [s[RunEnd(s, j, IsSpace)]])
    {
    }
    NoPairKept(s, SpaceBefore(IsCloser), p, q);
    var f := ReplaceGlobal(e, SpaceAfter(IsOpener));
    forall j | 0 <= j <= |e| && ValidHit(e, SpaceAfter(IsOpener), j)
      ensures SpaceAfter(IsOpener)(e, j).value == Hit(RunEnd(e, j + 1, IsSpace) - j, [e[j]])
    {
    }
    NoPairKept(e, SpaceAfter(IsOpener), p, q);
    NoPairKept(f, Run(IsSpace, 2, " "), p, q);
  }

  /**
   * In the output no ideograph runs into a letter, digit or `@`, and no letter or digit
   * runs into an ideograph.
   */
  lemma Separates(text: string)
    ensures NoPair(AddSpacesAroundEnglish(text), IsHanBasic, IsWordStart)
    ensures NoPair(AddSpacesAroundEnglish(text), IsAlnum, IsHanBasic)
  {
    if text != [] {
      var d := Separated(Tidied(text));
      SeparatedSeparates(Tidied(text));
      KeepsHanWord(d);
      KeepsWordHan(d);
    }
  }

  /** No mark the cleaning rules look at is an ideograph, a letter, a digit or `@`. */
  lemma MarksApart()
    ensures forall c :: IsCloser(c) || IsOpener(c) ==> !IsHanBasic(c) && !IsWordStart(c)
  {
  }

  lemma KeepsHanWord(d: string)
    requires NoPair(d, IsHanBasic, IsWordStart)
    ensures NoPair(Cleaned(d), IsHanBasic, IsWordStart)
  {
    ClassesSolid();
    MarksApart();
    CleanedKeeps(d, IsHanBasic, IsWordStart);
  }

  lemma KeepsWordHan(d: string)
    requires NoPair(d, IsAlnum, IsHanBasic)
    ensures NoPair(Cleaned(d), IsAlnum, IsHanBasic)
  {
    ClassesSolid();
    MarksApart();
    CleanedKeeps(d, IsAlnum, IsHanBasic);
  }

  lemma SeparatedSeparates(b: string)
    ensures NoPair(Separated(b), IsHanBasic, IsWordStart)
    ensures NoPair(Separated(b), IsAlnum, IsHanBasic)
  {
    var c := ReplaceGlobal(b, HanWord());
    HanWordClears(b);
    WordHanKeeps(c);
    WordHanClears(c);
  }

  // ---------------------------------------------------------------------------
  // Whitespace next to punctuation

  /**
   * In the output no whitespace precedes ，。！？；：、）」』]}, none follows （「『[{, and no two
   * whitespace characters are adjacent.
   */
  lemma Tight(text: string)
    ensures NoPair(AddSpacesAroundEnglish(text), IsSpace, IsCloser)
    ensures NoPair(AddSpacesAroundEnglish(text), IsOpener, IsSpace)
    ensures NoPair(AddSpacesAroundEnglish(text), IsSpace, IsSpace)
  {
    if text != [] {
      CleanedTight(Separated(Tidied(text)));
    }
  }

  lemma CleanedTight(d: string)
    ensures NoPair(Cleaned(d), IsSpace, IsCloser)
    ensures NoPair(Cleaned(d), IsOpener, IsSpace)
    ensures NoPair(Cleaned(d), IsSpace, IsSpace)
  {
    var e := ReplaceGlobal(d, SpaceBefore(IsCloser));
    var f := ReplaceGlobal(e, SpaceAfter(IsOpener));
    MarksSolid();
    SpaceBeforeClears(d, IsCloser);
    SpaceAfterKeeps(e, IsOpener, IsCloser);
    SpaceAfterClears(e, IsOpener);
    RunClears(f);
    RunKeepsTight(f);
  }

  /** Squeezing whitespace runs keeps both guarantees about marks. */
  lemma RunKeepsTight(f: string)
    requires NoPair(f, IsSpace, IsCloser) && NoPair(f, IsOpener, IsSpace)
    ensures NoPair(ReplaceGlobal(f, Run(IsSpace, 2, " ")), IsSpace, IsCloser)
    ensures NoPair(ReplaceGlobal(f, Run(IsSpace, 2, " ")), IsOpener, IsSpace)
  {
    RunKeepsBefore(f);
    RunKeepsAfter(f);
  }

  lemma RunKeepsBefore(f: string)
    requires NoPair(f, IsSpace, IsCloser)
    ensures NoPair(ReplaceGlobal(f, Run(IsSpace, 2, " ")), IsSpace, IsCloser)
  {
    var m := Run(IsSpace, 2, " ");
    forall j | 0 <= j <= |f| && ValidHit(f, m, j)
      ensures m(f, j).value == Hit(RunEnd(f, j, IsSpace) - j, " ")
      ensures IsSpace(f[j + m(f, j).value.len - 1])
    {
    }
    NoPairKeptEnds(f, m, IsSpace, IsCloser);
  }

  lemma RunKeepsAfter(f: string)
    requires NoPair(f, IsOpener, IsSpace)
    ensures NoPair(ReplaceGlobal(f, Run(IsSpace, 2, " ")), IsOpener, IsSpace)
  {
    var m := Run(IsSpace, 2, " ");
    forall j | 0 <= j <= |f| && ValidHit(f, m, j)
      ensures m(f, j).value == Hit(RunEnd(f, j, IsSpace) - j, " ") && IsSpace(f[j])
    {
    }
    NoPairKept(f, m, IsOpener, IsSpace);
  }

  // ---------------------------------------------------------------------------
  // Nothing but whitespace changes

  lemma GapOnlySpaces(s: string, m: Matcher)
    requires forall j :: 0 <= j <= |s| && ValidHit(s, m, j) ==>
      j + 1 < |s| && m(s, j).value == Hit(2, [s[j], ' ', s[j + 1]])
    ensures Remove(ReplaceGlobal(s, m), IsSpace) == Remove(s, IsSpace)
  {
    forall j | 0 <= j <= |s| ensures RemovesOnly(s, m, IsSpace, j) {
      if ValidHit(s, m, j) {
        GapRemoved(s, j);
      }
    }
    OnlyRemoves(s, m, IsSpace, 0);
    assert s[0..] == s;
  }

  lemma GapRemoved(s: string, j: nat)
    requires j + 1 < |s|
    ensures Remove([s[j], ' ', s[j + 1]], IsSpace) == Remove(s[j..j + 2], IsSpace)
  {
    var x, y := s[j], s[j + 1];
    assert s[j..j + 2] == [x, y];
    assert [x, ' ', y][1..] == [' ', y];
    assert [' ', y][1..] == [y];
    assert [x, y][1..] == [y];
  }

  /** The pass inserts and deletes whitespace and touches no other character. */
  lemma OnlySpaces(text: string)
    ensures Remove(AddSpacesAroundEnglish(text), IsSpace) == Remove(text, IsSpace)
  {
    if text != [] {
      TidiedOnlySpaces(text);
      SeparatedOnlySpaces(Tidied(text));
      CleanedOnlySpaces(Separated(Tidied(text)));
    }
  }

  lemma TidiedOnlySpaces(text: string)
    ensures Remove(Tidied(text), IsSpace) == Remove(text, IsSpace)
  {
    ClassesSolid();
    SqueezeOnlySpaces(text, IsAlnum, IsCloser);
    SqueezeOnlySpaces(ReplaceGlobal(text, Squeeze(IsAlnum, IsCloser)), IsLeader, IsAlnum);
  }

  lemma SeparatedOnlySpaces(b: string)
    ensures Remove(Separated(b), IsSpace) == Remove(b, IsSpace)
  {
    var c := ReplaceGlobal(b, HanWord());
    forall j | 0 <= j <= |b| && ValidHit(b, HanWord(), j)
      ensures j + 1 < |b| && HanWord()(b, j).value == Hit(2, [b[j], ' ', b[j + 1]])
    {
      HanWordHit(b, j);
    }
    GapOnlySpaces(b, HanWord());
    forall j | 0 <= j <= |c| && ValidHit(c, WordHan(), j)
      ensures j + 1 < |c| && WordHan()(c, j).value == Hit(2, [c[j], ' ', c[j + 1]])
    {
      WordHanHit(c, j);
    }
    GapOnlySpaces(c, WordHan());
  }

  lemma CleanedOnlySpaces(d: string)
    ensures Remove(Cleaned(d), IsSpace) == Remove(d, IsSpace)
  {
    var e := ReplaceGlobal(d, SpaceBefore(IsCloser));
    SpaceBeforeOnlySpaces(d, IsCloser);
    var f := ReplaceGlobal(e, SpaceAfter(IsOpener));
    SpaceAfterOnlySpaces(e, IsOpener);
    RunOnlySpaces(f, " ");
  }

  // ---------------------------------------------------------------------------
  // Examples

  /** Text without whitespace and without ideographs. */
  predicate Plain(s: string) {
    forall k :: 0 <= k < |s| ==> !IsSpace(s[k]) && !IsHanBasic(s[k])
  }

  /** Steps 5 to 7 leave text alone that already keeps what they enforce. */
  lemma CleanedIdle(s: string)
    requires NoPair(s, IsSpace, IsCloser) && NoPair(s, IsOpener, IsSpace) && NoPair(s, IsSpace, IsSpace)
    ensures Cleaned(s) == s
  {
    forall j | 0 <= j <= |s| ensures !ValidHit(s, SpaceBefore(IsCloser), j) {
      if j < |s| && IsSpace(s[j]) {
        var e := RunEnd(s, j, IsSpace);
        if e < |s| {
          assert !(IsSpace(s[e - 1]) && IsCloser(s[e - 1 + 1]));
        }
      }
    }
    Idle(s, SpaceBefore(IsCloser));
    Idle(s, SpaceAfter(IsOpener));
    forall j | 0 <= j <= |s| ensures !ValidHit(s, Run(IsSpace, 2, " "), j) {
      if j < |s| && IsSpace(s[j]) && j + 1 < |s| {
        assert !(IsSpace(s[j]) && IsSpace(s[j + 1]));
      }
    }
    Idle(s, Run(IsSpace, 2, " "));
  }

  /** Without whitespace or ideographs every rule after step 1 misses. */
  lemma PlainIdle(s: string)
    requires Plain(s)
    ensures ReplaceGlobal(s, Squeeze(IsLeader, IsAlnum)) == s
    ensures Separated(s) == s && Cleaned(s) == s
  {
    Idle(s, Squeeze(IsLeader, IsAlnum));
    Idle(s, HanWord());
    Idle(s, WordHan());
    CleanedIdle(s);
  }

  /** Text without whitespace or ideographs is left as it is: nothing next to `、` gets a space. */
  lemma PlainUnchanged(s: string)
    requires Plain(s)
    ensures AddSpacesAroundEnglish(s) == s
  {
    if s != [] {
      Idle(s, Squeeze(IsAlnum, IsCloser));
      PlainIdle(s);
    }
  }

  lemma EnumerationTest()
    ensures AddSpacesAroundEnglish("iPhone、") == "iPhone、"
  {
    PlainUnchanged("iPhone、");
  }

  /** Whitespace between a word and a closing mark goes. */
  lemma WordThenMark(v: string, c: char)
    requires v != [] && AllAlnum(v) && IsCloser(c)
    ensures AddSpacesAroundEnglish(v + " " + [c]) == v + [c]
  {
    WordSqueezed(v, c);
    WordMarkPlain(v, c);
    PlainIdle(v + [c]);
  }

  /** Step 1 drops the space between the last letter and the mark. */
  lemma WordSqueezed(v: string, c: char)
    requires v != [] && AllAlnum(v) && IsCloser(c)
    ensures ReplaceGlobal(v + " " + [c], Squeeze(IsAlnum, IsCloser)) == v + [c]
  {
    var s := v + " " + [c];
    var m := Squeeze(IsAlnum, IsCloser);
    var j := |v| - 1;
    WordMarkHit(v, c);
    forall k | 0 <= k < j ensures !ValidHit(s, m, k) {
      assert s[k + 1] == v[k + 1] && IsAlnum(v[k + 1]);
      assert !IsSpace(s[k + 1]);
    }
    OneHit(s, m, j);
    DropSpace(v, c);
  }

  lemma WordMarkHit(v: string, c: char)
    requires v != [] && AllAlnum(v) && IsCloser(c)
    ensures var s := v + " " + [c];
      Squeeze(IsAlnum, IsCloser)(s, |v| - 1) == Some(Hit(3, [v[|v| - 1], c]))
  {
    var s := v + " " + [c];
    var j := |v| - 1;
    assert s[j] == v[j] && s[j + 1] == ' ' && s[j + 2] == c;
    RunEndAt(s, j + 1, j + 2, IsSpace);
  }

  lemma DropSpace(v: string, c: char)
    requires v != []
    ensures var s := v + " " + [c];
      s[..|v| - 1] + [v[|v| - 1], c] + s[|v| + 2..] == v + [c]
  {
    var s := v + " " + [c];
    assert s[..|v| - 1] == v[..|v| - 1];
    assert s[|v| + 2..] == [];
    assert v[..|v| - 1] + [v[|v| - 1]] == v;
  }

  lemma WordMarkPlain(v: string, c: char)
    requires AllAlnum(v) && IsCloser(c)
    ensures Plain(v + [c])
  {
    var s := v + [c];
    forall k | 0 <= k < |s| ensures !IsSpace(s[k]) && !IsHanBasic(s[k]) {
      if k < |v| {
        assert s[k] == v[k];
      }
    }
  }

  lemma WordThenMarkTest()
    ensures AddSpacesAroundEnglish("iPhone 、") == "iPhone、"
  {
    WordThenMarkText();
    WordThenMark("iPhone", '、');
  }

  lemma WordThenMarkText()
    ensures AllAlnum("iPhone") && IsCloser('、')
    ensures "iPhone" + " " + ['、'] == "iPhone 、" && "iPhone" + ['、'] == "iPhone、"
  {
  }

  /** An ideograph directly followed by a word gets one space. */
  lemma HanThenWord(w: string, v: string)
    requires w != [] && AllHan(w) && v != [] && AllAlnum(v)
    ensures AddSpacesAroundEnglish(w + v) == w + " " + v
  {
    var s := w + v;
    forall k | 0 <= k < |s| ensures !IsSpace(s[k]) {
      if k < |w| {
        assert s[k] == w[k];
      } else {
        assert s[k] == v[k - |w|];
      }
    }
    Idle(s, Squeeze(IsAlnum, IsCloser));
    Idle(s, Squeeze(IsLeader, IsAlnum));
    var t := w + " " + v;
    HanWordOnce(w, v);
    WordHanIdle(w, v);
    SpacedTight(w, v);
    CleanedIdle(t);
  }

  lemma HanWordOnce(w: string, v: string)
    requires w != [] && AllHan(w) && v != [] && AllAlnum(v)
    ensures ReplaceGlobal(w + v, HanWord()) == w + " " + v
  {
    var s := w + v;
    var j := |w| - 1;
    HanWordAt(w, v);
    HanWordOnly(w, v);
    OneHit(s, HanWord(), j);
    InsertSpace(w, v);
  }

  /** Step 3 finds nothing in `w + v` but the ideograph and letter where they meet. */
  lemma HanWordOnly(w: string, v: string)
    requires w != [] && AllHan(w) && AllAlnum(v)
    ensures forall k :: 0 <= k < |w| - 1 ==> !ValidHit(w + v, HanWord(), k)
    ensures forall k :: |w| + 1 <= k <= |w + v| ==> !ValidHit(w + v, HanWord(), k)
  {
    var s := w + v;
    forall k | 0 <= k < |w| - 1 ensures !ValidHit(s, HanWord(), k) {
      assert s[k + 1] == w[k + 1];
    }
    forall k | |w| + 1 <= k <= |s| ensures !ValidHit(s, HanWord(), k) {
      if k < |s| {
        assert s[k] == v[k - |w|];
      }
    }
  }

  lemma HanWordAt(w: string, v: string)
    requires w != [] && AllHan(w) && v != [] && AllAlnum(v)
    ensures ValidHit(w + v, HanWord(), |w| - 1)
    ensures HanWord()(w + v, |w| - 1).value == Hit(2, [w[|w| - 1], ' ', v[0]])
  {
    var s := w + v;
    var j := |w| - 1;
    assert s[j] == w[j] && s[j + 1] == v[0];
    HanWordHit(s, j);
  }

  lemma InsertSpace(w: string, v: string)
    requires w != [] && v != []
    ensures var s := w + v;
      s[..|w| - 1] + [w[|w| - 1], ' ', v[0]] + s[|w| + 1..] == w + " " + v
  {
    var s := w + v;
    assert s[..|w| - 1] == w[..|w| - 1];
    assert s[|w| + 1..] == v[1..];
    assert w[..|w| - 1] + [w[|w| - 1]] == w;
    assert [v[0]] + v[1..] == v;
  }

  lemma WordHanIdle(w: string, v: string)
    requires AllHan(w) && AllAlnum(v)
    ensures ReplaceGlobal(w + " " + v, WordHan()) == w + " " + v
  {
    var t := w + " " + v;
    forall k | 0 <= k <= |t| ensures !ValidHit(t, WordHan(), k) {
      if k + 1 < |t| && k >= |w| + 1 {
        assert t[k + 1] == v[k + 1 - |w| - 1];
      } else if k < |w| {
        assert t[k] == w[k];
      }
    }
    Idle(t, WordHan());
  }

  lemma SpacedTight(w: string, v: string)
    requires AllHan(w) && AllAlnum(v)
    ensures var t := w + " " + v;
      NoPair(t, IsSpace, IsCloser) && NoPair(t, IsOpener, IsSpace) && NoPair(t, IsSpace, IsSpace)
  {
    var t := w + " " + v;
    forall k | 0 <= k < |t| ensures (k == |w| <==> IsSpace(t[k])) && !IsCloser(t[k]) && !IsOpener(t[k]) {
      if k < |w| {
        assert t[k] == w[k];
      } else if k > |w| {
        assert t[k] == v[k - |w| - 1];
      }
    }
  }

  lemma SpacingTest()
    ensures AddSpacesAroundEnglish("我用iPhone") == "我用 iPhone"
  {
    SpacingText();
    HanThenWord("我用", "iPhone");
  }

  lemma SpacingText()
    ensures AllHan("我用") && AllAlnum("iPhone")
    ensures "我用" + "iPhone" == "我用iPhone" && "我用" + " " + "iPhone" == "我用 iPhone"
  {
  }
}
