/**
 * normalizeScripture (index.js:87-134): each citation rendered as text, and
 * consecutive citations of one book merged into one string such as
 * `John 3:16-17, 20; 4:1`.
 */
module Normalizer {
  import opened Text
  import opened Books
  import opened Scanner
  import opened Citations
  import opened Parser

  datatype Result<T> = Success(value: T) | Failure(error: string)

  // ---------------------------------------------------------------------------
  // Rendering one citation (index.js:96-112, 117-123)
  // ---------------------------------------------------------------------------

  /** `${v}` for an endpoint's verse: `''` renders as nothing, a number as its digits. */
  function VerseText(v: Verse): string
  {
    match v
    case NoVerse => ""
    case Verse(n) => NatToString(n)
  }

  /** JavaScript truthiness of an endpoint's verse: `''` and `0` are falsy. */
  predicate HasVerse(v: Verse)
  {
    v.Verse? && v.n != 0
  }

  /**
   * `from[0] + (from[1] && `:${from[1]}${from[2]}`)`: the chapter, then
   * `:verse` and the fragment when the verse is truthy.  (For a verse of 0
   * the `&&` yields the number 0 and `+` adds it to the chapter.)
   */
  function Prefix(e: Endpoint): string
  {
    NatToString(e.chapter) + (if HasVerse(e.verse) then ":" + VerseText(e.verse) + e.fragment else "")
  }

  /**
   * The end of a range (index.js:100-112): the closing chapter (and verse)
   * when the chapters differ, the closing verse when only the verses differ,
   * the closing fragment when only the fragments differ.  On the first
   * branch a closing verse of 0 is appended as the digit `0` itself
   * (`'-' + to[0] + 0`).
   */
  function Suffix(from: Endpoint, to: Endpoint): (r: string)
    ensures r == "" <==> from == to
    ensures r != "" ==> r[0] == '-'
  {
    if to.chapter != from.chapter then
      "-" + NatToString(to.chapter)
        + (match to.verse
           case NoVerse => ""
           case Verse(n) => if n == 0 then "0" else ":" + NatToString(n) + to.fragment)
    else if to.verse != from.verse then "-" + VerseText(to.verse) + to.fragment
    else if to.fragment != from.fragment then "-" + to.fragment
    else ""
  }

  /** `norm` for a citation that starts a string. */
  function Standalone(c: Citation): string
  {
    Prefix(c.from) + Suffix(c.from, c.to)
  }

  /**
   * `norm` for a citation continuing a single-chapter citation of the same
   * chapter (index.js:119-122): the verse and fragment only, then the
   * closing fragment or closing verse when they differ.
   */
  function VersePart(from: Endpoint, to: Endpoint): string
  {
    VerseText(from.verse) + from.fragment
      + (if from.verse == to.verse && from.fragment == to.fragment then ""
         else if from.verse == to.verse then "-" + to.fragment
         else "-" + VerseText(to.verse) + to.fragment)
  }

  /** index.js:118: both single-chapter, in the same chapter. */
  predicate SameSingleChapter(last: Citation, c: Citation)
  {
    last.from.chapter == last.to.chapter && c.from.chapter == c.to.chapter && last.from.chapter == c.from.chapter
  }

  /** `norm` for a citation appended to the previous string of its book. */
  function Continuation(last: Citation, c: Citation): string
  {
    if SameSingleChapter(last, c) then VersePart(c.from, c.to) else Standalone(c)
  }

  /** `','` between citations of the same type, `';'` otherwise. */
  function Sep(last: Citation, c: Citation): string
  {
    if last.kind == c.kind then "," else ";"
  }

  /** `${book} ${norm}`: the string a citation opens. */
  function Opening(c: Citation): string
  {
    c.book + " " + Standalone(c)
  }

  /** `${sep} ${norm}`: what a citation appends to the string of its book. */
  function Joint(last: Citation, c: Citation): string
  {
    Sep(last, c) + " " + Continuation(last, c)
  }

  /**
   * What an appended citation reads as: `, ` after a citation of the same
   * type and `; ` otherwise, then either the citation as it would stand on
   * its own or, when both are single-chapter in the same chapter, that same
   * text with its leading `chapter:` dropped.
   */
  lemma JointRule(last: Citation, c: Citation)
    ensures var j := Joint(last, c);
      |j| >= 2 && j[1] == ' '
      && (j[0] == ',' <==> last.kind == c.kind)
      && (j[0] == ';' <==> last.kind != c.kind)
      && (!SameSingleChapter(last, c) ==> j[2..] == Standalone(c))
      && (SameSingleChapter(last, c) && HasVerse(c.from.verse) ==>
            Standalone(c) == NatToString(c.from.chapter) + ":" + j[2..])
      && (SameSingleChapter(last, c) && c.from.verse == NoVerse && c.from.fragment == "" ==>
            Standalone(c) == NatToString(c.from.chapter) + j[2..])
  {
    var j := Joint(last, c);
    assert j == Sep(last, c) + " " + Continuation(last, c);
    assert j[2..] == Continuation(last, c);
    if SameSingleChapter(last, c) && HasVerse(c.from.verse) {
      StandaloneInChapter(c);
    }
    if SameSingleChapter(last, c) && c.from.verse == NoVerse && c.from.fragment == "" {
      StandaloneWholeChapter(c);
    }
  }

  /** A single-chapter citation without a verse reads as its chapter and then its verse part. */
  lemma StandaloneWholeChapter(c: Citation)
    requires c.from.chapter == c.to.chapter && c.from.verse == NoVerse && c.from.fragment == ""
    ensures Standalone(c) == NatToString(c.from.chapter) + VersePart(c.from, c.to)
  {
    var d := NatToString(c.from.chapter);
    var head := VerseText(c.from.verse) + c.from.fragment;
    var tail := Suffix(c.from, c.to);
    assert head == [];
    assert Prefix(c.from) == d + head;
    assert VersePart(c.from, c.to) == head + tail;
    ConcatAssoc(d, head, tail);
  }

  /** A single-chapter citation with a verse reads `chapter:` and then its verse part. */
  lemma StandaloneInChapter(c: Citation)
    requires c.from.chapter == c.to.chapter && HasVerse(c.from.verse)
    ensures Standalone(c) == NatToString(c.from.chapter) + ":" + VersePart(c.from, c.to)
  {
    var v := VerseText(c.from.verse) + c.from.fragment;
    var tail := Suffix(c.from, c.to);
    assert Prefix(c.from) == NatToString(c.from.chapter) + (":" + v);
    assert VersePart(c.from, c.to) == v + tail;
    ConcatAssoc(NatToString(c.from.chapter), ":" + v, tail);
    ConcatAssoc(":", v, tail);
    ConcatAssoc(NatToString(c.from.chapter), ":", v + tail);
  }

  // ---------------------------------------------------------------------------
  // The fold over the references (index.js:91-131)
  // ---------------------------------------------------------------------------

  /** The `normalized` array and the previous reference `last`. */
  datatype NormState = NormState(normalized: seq<string>, last: Option<Citation>)

  predicate Consistent(st: NormState)
  {
    st.last.Some? ==> |st.normalized| > 0
  }

  /** One iteration of the `forEach` callback. */
  function Step(st: NormState, c: Citation): (r: NormState)
    requires Consistent(st)
    ensures Consistent(r) && r.last == Some(c)
  {
    if st.last.Some? && st.last.value.book == c.book then
      var n := |st.normalized|;
      NormState(st.normalized[..n - 1] + [st.normalized[n - 1] + Joint(st.last.value, c)], Some(c))
    else
      NormState(st.normalized + [Opening(c)], Some(c))
  }

  function Fold(cs: seq<Citation>): (r: NormState)
    ensures Consistent(r)
    ensures r.last == if cs == [] then None else Some(cs[|cs| - 1])
    decreases |cs|
  {
    if cs == [] then NormState([], None) else Step(Fold(cs[..|cs| - 1]), cs[|cs| - 1])
  }

  /** The strings normalizeScripture returns for a sequence of citations. */
  function Normalized(cs: seq<Citation>): seq<string>
  {
    Fold(cs).normalized
  }

  // ---------------------------------------------------------------------------
  // Runs of one book: what the merged strings are
  // ---------------------------------------------------------------------------

  /** The citations cut into runs of consecutive citations of one book. */
  function Runs(cs: seq<Citation>): (runs: seq<seq<Citation>>)
    ensures |runs| == 0 <==> cs == []
    ensures forall i :: 0 <= i < |runs| ==> |runs[i]| > 0
    ensures cs != [] ==> runs[|runs| - 1][|runs[|runs| - 1]| - 1] == cs[|cs| - 1]
    decreases |cs|
  {
    if cs == [] then []
    else
      var init := cs[..|cs| - 1];
      var prev := Runs(init);
      var c := cs[|cs| - 1];
      if init != [] && init[|init| - 1].book == c.book then
        prev[..|prev| - 1] + [prev[|prev| - 1] + [c]]
      else
        prev + [[c]]
  }

  function Flatten(runs: seq<seq<Citation>>): seq<Citation>
    decreases |runs|
  {
    if runs == [] then [] else Flatten(runs[..|runs| - 1]) + runs[|runs| - 1]
  }

  /** The runs, put back together, are the citations in their order. */
  lemma {:induction false} RunsFlatten(cs: seq<Citation>)
    ensures Flatten(Runs(cs)) == cs
    decreases |cs|
  {
    if cs != [] {
      var init := cs[..|cs| - 1];
      var c := cs[|cs| - 1];
      assert cs == init + [c];
      RunsFlatten(init);
      var prev := Runs(init);
      if init != [] && init[|init| - 1].book == c.book {
        var k := |prev| - 1;
        RunsSnocJoin(init, c);
        assert prev == prev[..k] + [prev[k]];
        FlattenSnoc(prev[..k], prev[k]);
        FlattenSnoc(prev[..k], prev[k] + [c]);
        assert Flatten(prev[..k]) + (prev[k] + [c]) == (Flatten(prev[..k]) + prev[k]) + [c];
      } else {
        RunsSnocOpen(init, c);
        FlattenSnoc(prev, [c]);
      }
    }
  }

  lemma FlattenSnoc(runs: seq<seq<Citation>>, run: seq<Citation>)
    ensures Flatten(runs + [run]) == Flatten(runs) + run
  {
    assert (runs + [run])[..|runs|] == runs;
  }

  /** Every citation of a run has the book of the run's first citation. */
  lemma {:induction false} RunsOneBook(cs: seq<Citation>)
    ensures forall i, j :: 0 <= i < |Runs(cs)| && 0 <= j < |Runs(cs)[i]| ==> Runs(cs)[i][j].book == Runs(cs)[i][0].book
    decreases |cs|
  {
    if cs != [] {
      var init := cs[..|cs| - 1];
      RunsOneBook(init);
      var prev := Runs(init);
      var c := cs[|cs| - 1];
      if init != [] && init[|init| - 1].book == c.book {
        var last := prev[|prev| - 1];
        assert last[|last| - 1] == init[|init| - 1];
        assert last[|last| - 1].book == last[0].book;
      }
    }
  }

  /** Runs are maximal: two neighbouring runs are of different books. */
  lemma {:induction false} RunsMaximal(cs: seq<Citation>)
    ensures forall i :: 0 <= i < |Runs(cs)| - 1 ==> Runs(cs)[i][0].book != Runs(cs)[i + 1][0].book
    decreases |cs|
  {
    if cs != [] {
      var init := cs[..|cs| - 1];
      RunsMaximal(init);
      RunsOneBook(init);
      var prev := Runs(init);
      var c := cs[|cs| - 1];
      if !(init != [] && init[|init| - 1].book == c.book) && init != [] {
        var last := prev[|prev| - 1];
        assert last[|last| - 1] == init[|init| - 1];
        assert last[|last| - 1].book == last[0].book;
      }
    }
  }

  /**
   * The string of one run: its first citation standing alone after the book
   * name, then each further citation after `, ` or `; `.
   */
  function RunText(run: seq<Citation>): (r: string)
    requires |run| > 0
    decreases |run|
  {
    if |run| == 1 then Opening(run[0])
    else
      var n := |run|;
      RunText(run[..n - 1]) + Joint(run[n - 2], run[n - 1])
  }

  /** Each string starts with its book's name, a space and its first citation in full. */
  lemma {:induction false} RunTextStarts(run: seq<Citation>)
    requires |run| > 0
    ensures var head := Opening(run[0]);
      |head| <= |RunText(run)| && RunText(run)[..|head|] == head
    decreases |run|
  {
    if |run| > 1 {
      RunTextStarts(run[..|run| - 1]);
    }
  }

  /** One string per run, in order. */
  function RunTexts(runs: seq<seq<Citation>>): (r: seq<string>)
    requires forall i :: 0 <= i < |runs| ==> |runs[i]| > 0
    ensures |r| == |runs|
    decreases |runs|
  {
    if runs == [] then []
    else
      var init := runs[..|runs| - 1];
      assert forall i :: 0 <= i < |init| ==> init[i] == runs[i];
      RunTexts(init) + [RunText(runs[|runs| - 1])]
  }

  lemma RunTextsSnoc(runs: seq<seq<Citation>>, run: seq<Citation>)
    requires forall i :: 0 <= i < |runs| ==> |runs[i]| > 0
    requires |run| > 0
    ensures RunTexts(runs + [run]) == RunTexts(runs) + [RunText(run)]
  {
    assert (runs + [run])[..|runs|] == runs;
  }

  /** A further citation of a run is appended to the run's string after `, ` or `; `. */
  lemma RunTextSnoc(run: seq<Citation>, c: Citation)
    requires |run| > 0
    ensures var p := run[|run| - 1];
      RunText(run + [c]) == RunText(run) + Joint(p, c)
  {
    var r := run + [c];
    assert r[..|r| - 1] == run;
  }

  lemma AppendToLast(xs: seq<string>, ys: seq<string>, y: string, tail: string)
    requires xs == ys + [y]
    ensures xs[..|xs| - 1] + [xs[|xs| - 1] + tail] == ys + [y + tail]
  {
    assert xs[..|xs| - 1] == ys;
  }

  /**
   * A citation of the previous citation's book extends the last string.
   * Stated for reference: the proof only unfolds `Step`.
   */
  lemma FoldSnocJoin(init: seq<Citation>, c: Citation)
    requires init != [] && init[|init| - 1].book == c.book
    ensures var n := |Normalized(init)|;
      n > 0 && Normalized(init + [c]) == Normalized(init)[..n - 1] + [Normalized(init)[n - 1] + Joint(init[|init| - 1], c)]
  {
    assert (init + [c])[..|init|] == init;
  }

  /** Any other citation opens a new string.  Stated for reference: the proof only unfolds `Step`. */
  lemma FoldSnocOpen(init: seq<Citation>, c: Citation)
    requires !(init != [] && init[|init| - 1].book == c.book)
    ensures Normalized(init + [c]) == Normalized(init) + [Opening(c)]
  {
    assert (init + [c])[..|init|] == init;
  }

  /** A citation of the previous citation's book joins the last run. */
  lemma RunsSnocJoin(init: seq<Citation>, c: Citation)
    requires init != [] && init[|init| - 1].book == c.book
    ensures var prev := Runs(init);
      Runs(init + [c]) == prev[..|prev| - 1] + [prev[|prev| - 1] + [c]]
      && prev[|prev| - 1][|prev[|prev| - 1]| - 1] == init[|init| - 1]
  {
    assert (init + [c])[..|init|] == init;
  }

  /** Any other citation starts a new run. */
  lemma RunsSnocOpen(init: seq<Citation>, c: Citation)
    requires !(init != [] && init[|init| - 1].book == c.book)
    ensures Runs(init + [c]) == Runs(init) + [[c]]
  {
    assert (init + [c])[..|init|] == init;
  }

  /** normalizeScripture's strings are exactly one string per run, in order. */
  lemma {:induction false} NormalizedRuns(cs: seq<Citation>)
    ensures Normalized(cs) == RunTexts(Runs(cs))
    decreases |cs|
  {
    if cs != [] {
      var init := cs[..|cs| - 1];
      var c := cs[|cs| - 1];
      assert cs == init + [c];
      NormalizedRuns(init);
      if init != [] && init[|init| - 1].book == c.book {
        NormalizedRunsJoin(init, c);
      } else {
        NormalizedRunsOpen(init, c);
      }
    }
  }

  lemma NormalizedRunsJoin(init: seq<Citation>, c: Citation)
    requires init != [] && init[|init| - 1].book == c.book
    requires Normalized(init) == RunTexts(Runs(init))
    ensures Normalized(init + [c]) == RunTexts(Runs(init + [c]))
  {
    JoinNormalized(init, c);
    JoinRunTexts(init, c);
  }

  /** The strings after a joining citation, in terms of the runs before it. */
  lemma JoinNormalized(init: seq<Citation>, c: Citation)
    requires init != [] && init[|init| - 1].book == c.book
    requires Normalized(init) == RunTexts(Runs(init))
    ensures var prev := Runs(init); var k := |prev| - 1;
      Normalized(init + [c]) == RunTexts(prev[..k]) + [RunText(prev[k]) + Joint(init[|init| - 1], c)]
  {
    var prev := Runs(init);
    var k := |prev| - 1;
    FoldSnocJoin(init, c);
    assert prev == prev[..k] + [prev[k]];
    RunTextsSnoc(prev[..k], prev[k]);
    AppendToLast(Normalized(init), RunTexts(prev[..k]), RunText(prev[k]), Joint(init[|init| - 1], c));
  }

  /** The run texts after a joining citation, in terms of the runs before it. */
  lemma JoinRunTexts(init: seq<Citation>, c: Citation)
    requires init != [] && init[|init| - 1].book == c.book
    ensures var prev := Runs(init); var k := |prev| - 1;
      RunTexts(Runs(init + [c])) == RunTexts(prev[..k]) + [RunText(prev[k]) + Joint(init[|init| - 1], c)]
  {
    var prev := Runs(init);
    var k := |prev| - 1;
    RunsSnocJoin(init, c);
    RunTextSnoc(prev[k], c);
    RunTextsSnoc(prev[..k], prev[k] + [c]);
  }

  lemma NormalizedRunsOpen(init: seq<Citation>, c: Citation)
    requires !(init != [] && init[|init| - 1].book == c.book)
    requires Normalized(init) == RunTexts(Runs(init))
    ensures Normalized(init + [c]) == RunTexts(Runs(init + [c]))
  {
    FoldSnocOpen(init, c);
    RunsSnocOpen(init, c);
    RunTextsSnoc(Runs(init), [c]);
  }

  /** The `i`-th string is the text of the `i`-th run. */
  lemma {:induction false} RunTextsAt(runs: seq<seq<Citation>>, i: nat)
    requires forall j :: 0 <= j < |runs| ==> |runs[j]| > 0
    requires i < |runs|
    ensures RunTexts(runs)[i] == RunText(runs[i])
    decreases |runs|
  {
    var init := runs[..|runs| - 1];
    if i < |init| {
      RunTextsAt(init, i);
      assert init[i] == runs[i];
    }
  }

  /**
   * The i-th string returned is the text of the i-th maximal run, and so
   * opens with the book and the rendering of the run's first citation.
   */
  lemma NormalizedStrings(cs: seq<Citation>)
    ensures |Normalized(cs)| == |Runs(cs)|
    ensures forall i :: 0 <= i < |Runs(cs)| ==> Normalized(cs)[i] == RunText(Runs(cs)[i])
    ensures forall i :: 0 <= i < |Runs(cs)| ==>
      var head := Opening(Runs(cs)[i][0]);
      |head| <= |Normalized(cs)[i]| && Normalized(cs)[i][..|head|] == head
  {
    NormalizedRuns(cs);
    var runs := Runs(cs);
    forall i | 0 <= i < |runs|
      ensures Normalized(cs)[i] == RunText(runs[i])
      ensures |Opening(runs[i][0])| <= |Normalized(cs)[i]|
      ensures Normalized(cs)[i][..|Opening(runs[i][0])|] == Opening(runs[i][0])
    {
      RunTextsAt(runs, i);
      RunTextStarts(runs[i]);
    }
  }

  /** Citations of one book are rendered into a single string. */
  lemma OneBookOneString(cs: seq<Citation>)
    requires |cs| > 0 && forall i :: 0 <= i < |cs| ==> cs[i].book == cs[0].book
    ensures |Normalized(cs)| == 1
  {
    NormalizedRuns(cs);
    RunsMaximal(cs);
    RunsOneBook(cs);
    RunsFlatten(cs);
    var runs := Runs(cs);
    if |runs| > 1 {
      FlattenMembers(runs, 1, 0);
      FlattenMembers(runs, 0, 0);
      assert false;
    }
  }

  /** Whatever a run holds is one of the citations. */
  lemma {:induction false} FlattenMembers(runs: seq<seq<Citation>>, i: nat, j: nat)
    requires i < |runs| && j < |runs[i]|
    ensures runs[i][j] in Flatten(runs)
    decreases |runs|
  {
    if i < |runs| - 1 {
      FlattenMembers(runs[..|runs| - 1], i, j);
    }
  }

  // ---------------------------------------------------------------------------
  // What a rendered citation reads as
  // ---------------------------------------------------------------------------

  /** A rendered citation starts with its chapter, and has a verse part exactly when its verse is truthy. */
  lemma PrefixReadsChapter(e: Endpoint)
    ensures ParseInt(Prefix(e)) == e.chapter
    ensures |Prefix(e)| > |NatToString(e.chapter)| <==> HasVerse(e.verse)
  {
    var d := NatToString(e.chapter);
    var p := Prefix(e);
    SpacesFromExact(p, 0, 0);
    if HasVerse(e.verse) {
      assert p[|d|] == ':';
    }
    DigitsFromExact(p, 0, |d|);
    assert p[0..|d|] == d;
  }

  /**
   * With a truthy verse, the prefix is the chapter, `:`, then text that reads
   * back as the verse and ends with the fragment.
   */
  lemma PrefixReadsVerse(e: Endpoint)
    requires HasVerse(e.verse) && NoLeadingDigit(e.fragment)
    ensures var d := NatToString(e.chapter);
      var p := Prefix(e);
      |p| > |d| + 1 && p[..|d|] == d && p[|d|] == ':'
      && ParseInt(p[|d| + 1..]) == e.verse.n
      && p[|p| - |e.fragment|..] == e.fragment
  {
    var d := NatToString(e.chapter);
    var n := NatToString(e.verse.n);
    var p := Prefix(e);
    assert p == d + ((":" + n) + e.fragment);
    ConcatAssoc(":", n, e.fragment);
    ConcatAssoc(d, ":", n + e.fragment);
    ThreeParts(d + ":", n, e.fragment);
    ConcatAssoc(d + ":", n, e.fragment);
    ParseIntOfNumberThen(e.verse.n, e.fragment);
  }

  /**
   * When the chapters differ, the range end is `-` and the closing chapter,
   * except that a closing verse of 0 is glued to it as a digit: `-3` then
   * `0` reads as chapter 30.
   */
  lemma SuffixReadsChapter(from: Endpoint, to: Endpoint)
    requires to.chapter != from.chapter
    ensures var s := Suffix(from, to);
      |s| > 1 && s[0] == '-'
      && (to.verse != Verse(0) ==> ParseInt(s[1..]) == to.chapter)
      && (to.verse == Verse(0) ==> ParseInt(s[1..]) == 10 * to.chapter)
  {
    var s := Suffix(from, to);
    var d := NatToString(to.chapter);
    match to.verse
    case NoVerse =>
      assert s[1..] == d + [];
      ParseIntOfNumberThen(to.chapter, []);
    case Verse(n) =>
      if n == 0 {
        assert s[1..] == d + "0";
        ParseIntOfNumberThenZero(to.chapter);
      } else {
        var rest := ":" + NatToString(n) + to.fragment;
        assert s[1..] == d + rest;
        ParseIntOfNumberThen(to.chapter, rest);
      }
  }

  /**
   * When the chapters differ and the closing verse is truthy, the closing
   * chapter is followed by `:`, text that reads back as the closing verse,
   * and the closing fragment.
   */
  lemma SuffixReadsChapterVerse(from: Endpoint, to: Endpoint)
    requires to.chapter != from.chapter && HasVerse(to.verse) && NoLeadingDigit(to.fragment)
    ensures var s := Suffix(from, to);
      var d := NatToString(to.chapter);
      |s| > |d| + 2 && s[|d| + 1] == ':'
      && ParseInt(s[|d| + 2..]) == to.verse.n
      && s[|s| - |to.fragment|..] == to.fragment
  {
    var d := NatToString(to.chapter);
    var n := NatToString(to.verse.n);
    var s := Suffix(from, to);
    assert s == ("-" + d) + ((":" + n) + to.fragment);
    Reassociate("-", d, ":", n, to.fragment);
    ThreeParts("-" + d + ":", n, to.fragment);
    ParseIntOfNumberThen(to.verse.n, to.fragment);
  }

  /**
   * In one chapter with different verses, the range end is `-`, then text
   * that reads back as the closing verse and ends with the closing fragment
   * (or only the fragment when the closing endpoint has no verse).
   */
  lemma SuffixReadsVerse(from: Endpoint, to: Endpoint)
    requires to.chapter == from.chapter && to.verse != from.verse && NoLeadingDigit(to.fragment)
    ensures var s := Suffix(from, to);
      s[0] == '-' && s[|s| - |to.fragment|..] == to.fragment
      && (to.verse.Verse? ==> ParseInt(s[1..]) == to.verse.n)
      && (to.verse.NoVerse? ==> s == "-" + to.fragment)
  {
    var s := Suffix(from, to);
    if to.verse.Verse? {
      assert s[1..] == NatToString(to.verse.n) + to.fragment;
      ParseIntOfNumberThen(to.verse.n, to.fragment);
    }
  }

  /**
   * In one chapter and verse with different fragments, the range end is `-`
   * and the closing fragment.  Stated for reference: it only unfolds `Suffix`.
   */
  lemma SuffixReadsFragment(from: Endpoint, to: Endpoint)
    requires to.chapter == from.chapter && to.verse == from.verse && to.fragment != from.fragment
    ensures Suffix(from, to) == "-" + to.fragment
  {
  }

  // ---------------------------------------------------------------------------
  // normalizeScripture
  // ---------------------------------------------------------------------------

  /** normalizeScripture's argument: a string to parse, or a list of values. */
  datatype Input = FromString(text: string) | FromList(values: seq<Value>)

  /** `parts.map((p) => new ScriptureReference(p))` */
  function Wrap(cs: seq<Citation>): (r: seq<Value>)
    ensures |r| == |cs| && forall i :: 0 <= i < |cs| ==> r[i] == ScriptureReference(cs[i])
  {
    seq(|cs|, i requires 0 <= i < |cs| => ScriptureReference(cs[i]))
  }

  lemma FoldSnoc(cs: seq<Citation>, c: Citation)
    ensures Fold(cs + [c]) == Step(Fold(cs), c)
  {
    assert (cs + [c])[..|cs|] == cs;
  }

  /** The references normalizeScripture works on and returns. */
  function ReferencesOf(mode: Lookahead, books: seq<Book>, input: Input): seq<Value>
    requires ValidRegistry(books)
  {
    match input
    case FromString(s) => Wrap(ParseSpec(mode, books, s))
    case FromList(vs) => vs
  }

  predicate AllReferences(vs: seq<Value>)
  {
    forall i :: 0 <= i < |vs| ==> vs[i].ScriptureReference?
  }

  function CitationsOf(vs: seq<Value>): (cs: seq<Citation>)
    requires AllReferences(vs)
    ensures |cs| == |vs| && forall i :: 0 <= i < |vs| ==> cs[i] == vs[i].citation
  {
    seq(|vs|, i requires 0 <= i < |vs| => vs[i].citation)
  }

  /** The citations of the first `i` references, extended by one. */
  lemma SeenExtend(references: seq<Value>, seen: seq<Citation>, i: nat)
    requires |seen| == i < |references| && references[i].ScriptureReference?
    requires forall j :: 0 <= j < i ==> references[j].ScriptureReference? && seen[j] == references[j].citation
    ensures forall j :: 0 <= j < i + 1 ==>
      references[j].ScriptureReference? && (seen + [references[i].citation])[j] == references[j].citation
  {
  }

  /**
   * The body of the `forEach` callback for a ScriptureReference
   * (index.js:96-130): render it, then either append it to the last string
   * when the previous reference has the same book, or start a new string.
   */
  method AddReference(normalized: seq<string>, last: Option<Citation>, c: Citation) returns (next: seq<string>)
    requires Consistent(NormState(normalized, last))
    ensures NormState(next, Some(c)) == Step(NormState(normalized, last), c)
  {
    var norm := Standalone(c);
    if last.Some? && last.value.book == c.book {
      var sep := Sep(last.value, c);
      if SameSingleChapter(last.value, c) {
        norm := VersePart(c.from, c.to);
      }
      assert sep + " " + norm == Joint(last.value, c);
      next := normalized[..|normalized| - 1] + [normalized[|normalized| - 1] + (sep + " " + norm)];
    } else {
      next := normalized + [c.book + " " + norm];
    }
  }

  /**
   * The `forEach` of normalizeScripture (index.js:91-133): render the
   * references one by one, merging runs of one book; the first value that
   * is not a ScriptureReference is an error.
   */
  method NormalizeReferences(references: seq<Value>) returns (r: Result<(seq<Value>, seq<string>)>)
    ensures match r
      case Failure(msg) =>
        exists i :: 0 <= i < |references| && AllReferences(references[..i]) && references[i].OtherValue?
          && msg == references[i].printed + " is not a ScriptureReference"
      case Success((values, normalized)) =>
        AllReferences(references) && values == references && normalized == Normalized(CitationsOf(references))
  {
    var normalized: seq<string> := [];
    var last: Option<Citation> := None;
    ghost var seen: seq<Citation> := [];
    var i := 0;
    while i < |references|
      invariant i <= |references| && |seen| == i
      invariant forall j :: 0 <= j < i ==> references[j].ScriptureReference? && seen[j] == references[j].citation
      invariant NormState(normalized, last) == Fold(seen)
    {
      var ref := references[i];
      if ref.OtherValue? {
        assert forall j :: 0 <= j < i ==> references[..i][j] == references[j];
        assert AllReferences(references[..i]) && references[i].OtherValue?;
        return Failure(ref.printed + " is not a ScriptureReference");
      }
      var c := ref.citation;
      FoldSnoc(seen, c);
      SeenExtend(references, seen, i);
      normalized := AddReference(normalized, last, c);
      last := Some(c);
      seen := seen + [c];
      i := i + 1;
    }
    assert seen == CitationsOf(references);
    return Success((references, normalized));
  }

  /** normalizeScripture (index.js:87-134): a string is parsed first, with the scan `mode`. */
  method NormalizeScripture(mode: Lookahead, books: seq<Book>, input: Input) returns (r: Result<(seq<Value>, seq<string>)>)
    requires ValidRegistry(books)
    ensures var refs := ReferencesOf(mode, books, input);
      match r
      case Failure(msg) =>
        exists i :: 0 <= i < |refs| && AllReferences(refs[..i]) && refs[i].OtherValue?
          && msg == refs[i].printed + " is not a ScriptureReference"
      case Success((values, normalized)) =>
        AllReferences(refs) && values == refs && normalized == Normalized(CitationsOf(refs))
  {
    var references: seq<Value>;
    match input {
      case FromString(s) =>
        var parts := ParseScripture(mode, books, s);
        references := Wrap(parts);
      case FromList(vs) =>
        references := vs;
    }
    assert references == ReferencesOf(mode, books, input);
    r := NormalizeReferences(references);
  }
}
