/**
 * Character classes and small string functions shared by the scanner, the
 * parser and the normalizer of index.js: the regular-expression classes
 * `\d`, `\s`, `\w` and `[–—-]`, ASCII case folding, JavaScript's `parseInt`
 * on the strings the parser hands it, decimal rendering of numbers, and the
 * whitespace collapse that starts parseScripture.
 */
module Text {

  // ---------------------------------------------------------------------------
  // Character classes
  // ---------------------------------------------------------------------------

  /** `\d` */
  predicate IsDigit(c: char) { '0' <= c <= '9' }

  /** `\s` in a JavaScript regular expression: WhiteSpace and LineTerminator. */
  predicate IsSpace(c: char)
  {
    c == ' ' || c == '\t' || c == '\n' || c == '\r' || c == '\U{000B}' || c == '\U{000C}'
    || c == '\U{00A0}' || c == '\U{1680}' || ('\U{2000}' <= c <= '\U{200A}')
    || c == '\U{2028}' || c == '\U{2029}' || c == '\U{202F}' || c == '\U{205F}'
    || c == '\U{3000}' || c == '\U{FEFF}'
  }

  /** `\w` (no `u` flag): the characters that delimit a `\b` word boundary. */
  predicate IsWordChar(c: char)
  {
    ('a' <= c <= 'z') || ('A' <= c <= 'Z') || IsDigit(c) || c == '_'
  }

  /** `[–—-]`: hyphen-minus, en dash, em dash. */
  predicate IsDash(c: char) { c == '-' || c == '\U{2013}' || c == '\U{2014}' }

  /** `[a-f]` under the `i` flag: a sub-verse fragment letter. */
  predicate IsFragmentLetter(c: char) { ('a' <= c <= 'f') || ('A' <= c <= 'F') }

  predicate AllDigits(s: string) { forall i :: 0 <= i < |s| ==> IsDigit(s[i]) }

  /** A non-empty run of decimal digits, as `\d+` matches it. */
  predicate DigitString(s: string) { |s| > 0 && AllDigits(s) }

  // ---------------------------------------------------------------------------
  // Case folding (ASCII)
  // ---------------------------------------------------------------------------

  function LowerChar(c: char): (r: char)
    ensures IsWordChar(c) <==> IsWordChar(r)
    ensures 'A' <= c <= 'Z' ==> r != c
  {
    if 'A' <= c <= 'Z' then (c as int + 32) as char else c
  }

  /** `String.prototype.toLowerCase` restricted to ASCII letters. */
  function ToLower(s: string): (r: string)
    ensures |r| == |s|
    ensures forall i :: 0 <= i < |s| ==> r[i] == LowerChar(s[i])
  {
    if s == [] then [] else [LowerChar(s[0])] + ToLower(s[1..])
  }

  /** Equality of two strings under the `i` flag. */
  predicate EqualsIgnoringCase(a: string, b: string)
  {
    |a| == |b| && forall i :: 0 <= i < |a| ==> LowerChar(a[i]) == LowerChar(b[i])
  }

  // ---------------------------------------------------------------------------
  // Runs of digits and of spaces, by position
  // ---------------------------------------------------------------------------

  /** The end of the run of digits that starts at `p`. */
  function DigitsFrom(s: string, p: nat): (e: nat)
    requires p <= |s|
    ensures p <= e <= |s|
    ensures forall i :: p <= i < e ==> IsDigit(s[i])
    ensures e == |s| || !IsDigit(s[e])
    decreases |s| - p
  {
    if p < |s| && IsDigit(s[p]) then DigitsFrom(s, p + 1) else p
  }

  /** The end of the run of whitespace that starts at `p`. */
  function SpacesFrom(s: string, p: nat): (e: nat)
    requires p <= |s|
    ensures p <= e <= |s|
    ensures forall i :: p <= i < e ==> IsSpace(s[i])
    ensures e == |s| || !IsSpace(s[e])
    decreases |s| - p
  {
    if p < |s| && IsSpace(s[p]) then SpacesFrom(s, p + 1) else p
  }

  lemma {:induction false} DigitsFromExact(s: string, p: nat, e: nat)
    requires p <= e <= |s|
    requires forall i :: p <= i < e ==> IsDigit(s[i])
    requires e == |s| || !IsDigit(s[e])
    ensures DigitsFrom(s, p) == e
    decreases e - p
  {
    if p < e { DigitsFromExact(s, p + 1, e); }
  }

  lemma {:induction false} SpacesFromExact(s: string, p: nat, e: nat)
    requires p <= e <= |s|
    requires forall i :: p <= i < e ==> IsSpace(s[i])
    requires e == |s| || !IsSpace(s[e])
    ensures SpacesFrom(s, p) == e
    decreases e - p
  {
    if p < e { SpacesFromExact(s, p + 1, e); }
  }

  // ---------------------------------------------------------------------------
  // Numbers
  // ---------------------------------------------------------------------------

  function DigitValue(c: char): (d: nat)
    requires IsDigit(c)
    ensures d < 10
  {
    (c as int - '0' as int)
  }

  function DigitChar(d: nat): (c: char)
    requires d < 10
    ensures IsDigit(c) && DigitValue(c) == d
  {
    ('0' as int + d) as char
  }

  /** The number a string of decimal digits denotes. */
  function DigitsValue(s: string): nat
    requires AllDigits(s)
  {
    if s == [] then 0 else DigitsValue(s[..|s| - 1]) * 10 + DigitValue(s[|s| - 1])
  }

  /**
   * `parseInt` as the parser applies it: leading whitespace skipped, then the
   * value of the leading run of digits (0 where JavaScript would give NaN).
   */
  function ParseInt(s: string): nat
  {
    var k := SpacesFrom(s, 0);
    DigitsValue(s[k..DigitsFrom(s, k)])
  }

  lemma ParseIntOfDigits(s: string)
    requires DigitString(s)
    ensures ParseInt(s) == DigitsValue(s)
  {
    SpacesFromExact(s, 0, 0);
    DigitsFromExact(s, 0, |s|);
    assert s[0..|s|] == s;
  }

  /** The decimal text of a number, as a template literal `${n}` renders it. */
  function NatToString(n: nat): (r: string)
    ensures DigitString(r)
    ensures DigitsValue(r) == n
    ensures r[0] == '0' ==> n == 0
    ensures n == 0 ==> r == "0"
    ensures |r| > 1 ==> r[0] != '0'
  {
    if n < 10 then [DigitChar(n)]
    else
      var r := NatToString(n / 10) + [DigitChar(n % 10)];
      assert r[..|r| - 1] == NatToString(n / 10);
      r
  }

  /** Text that cannot extend a number written before it. */
  predicate NoLeadingDigit(s: string)
  {
    s == [] || !IsDigit(s[0])
  }

  /** A printed number followed by text that is not a digit reads back as the number. */
  lemma ParseIntOfNumberThen(n: nat, rest: string)
    requires NoLeadingDigit(rest)
    ensures ParseInt(NatToString(n) + rest) == n
  {
    var d := NatToString(n);
    var p := d + rest;
    SpacesFromExact(p, 0, 0);
    DigitsFromExact(p, 0, |d|);
    assert p[0..|d|] == d;
  }

  /** A printed number with a `0` glued on reads back as ten times the number. */
  lemma ParseIntOfNumberThenZero(n: nat)
    ensures ParseInt(NatToString(n) + "0") == 10 * n
  {
    var p := NatToString(n) + "0";
    assert DigitString(p);
    ParseIntOfDigits(p);
    assert p[..|p| - 1] == NatToString(n);
  }

  // ---------------------------------------------------------------------------
  // Whitespace collapse: `input.replace(/\s+/g, ' ')`
  // ---------------------------------------------------------------------------

  /** Every whitespace character is a plain space, and no two are adjacent. */
  predicate Collapsed(s: string)
  {
    forall i :: 0 <= i < |s| && IsSpace(s[i]) ==> s[i] == ' ' && (i + 1 == |s| || !IsSpace(s[i + 1]))
  }

  /** The characters of `s` that are not whitespace, in order. */
  function NonSpace(s: string): string
  {
    if s == [] then [] else (if IsSpace(s[0]) then [] else [s[0]]) + NonSpace(s[1..])
  }

  lemma {:induction false} NonSpaceOfSpaces(s: string, e: nat)
    requires e <= |s|
    requires forall i :: 0 <= i < e ==> IsSpace(s[i])
    ensures NonSpace(s) == NonSpace(s[e..])
  {
    if e > 0 {
      NonSpaceOfSpaces(s[1..], e - 1);
      assert s[1..][e - 1..] == s[e..];
    }
  }

  /**
   * Each maximal run of whitespace becomes one space; everything else is kept
   * in order.
   */
  function CollapseWhitespace(s: string): (r: string)
    ensures Collapsed(r)
    ensures NonSpace(r) == NonSpace(s)
    ensures |r| <= |s|
    ensures |r| > 0 && IsSpace(r[0]) <==> |s| > 0 && IsSpace(s[0])
    decreases |s|
  {
    if s == [] then []
    else if IsSpace(s[0]) then
      var k := SpacesFrom(s, 0);
      var r := [' '] + CollapseWhitespace(s[k..]);
      NonSpaceOfSpaces(s, k);
      assert r[1..] == CollapseWhitespace(s[k..]);
      r
    else
      var r := [s[0]] + CollapseWhitespace(s[1..]);
      assert r[1..] == CollapseWhitespace(s[1..]);
      r
  }

  /**
   * A run of whitespace between two pieces becomes exactly one space, and
   * the pieces on either side are collapsed on their own.
   */
  lemma {:induction false} CollapseRun(a: string, w: string, b: string)
    requires a == [] || !IsSpace(a[|a| - 1])
    requires w != [] && forall i :: 0 <= i < |w| ==> IsSpace(w[i])
    requires b == [] || !IsSpace(b[0])
    ensures CollapseWhitespace(a + w + b) == CollapseWhitespace(a) + " " + CollapseWhitespace(b)
    decreases |a|
  {
    if a == [] {
      CollapseRunAlone(a, w, b);
    } else {
      var k := HeadLength(a);
      var rest := a[k..];
      CollapseRun(rest, w, b);
      CollapseRunHead(a, w, b, k);
    }
  }

  /** How many characters the first step of the collapse consumes. */
  function HeadLength(a: string): (k: nat)
    requires a != [] && !IsSpace(a[|a| - 1])
    ensures 0 < k <= |a|
    ensures a[k..] == [] || !IsSpace(a[k..][|a[k..]| - 1])
  {
    if IsSpace(a[0]) then SpacesFrom(a, 0) else 1
  }

  lemma CollapseRunAlone(a: string, w: string, b: string)
    requires a == []
    requires w != [] && forall i :: 0 <= i < |w| ==> IsSpace(w[i])
    requires b == [] || !IsSpace(b[0])
    ensures CollapseWhitespace(a + w + b) == CollapseWhitespace(a) + " " + CollapseWhitespace(b)
  {
    var s := a + w + b;
    DropAfterEmpty(a, w, b);
    SpacesFromExact(s, 0, |w|);
    CollapseSpaceHead(s);
    EmptyLeft(CollapseWhitespace(a), " ");
  }

  lemma CollapseRunHead(a: string, w: string, b: string, k: nat)
    requires a != [] && !IsSpace(a[|a| - 1]) && k == HeadLength(a)
    requires w != [] && forall i :: 0 <= i < |w| ==> IsSpace(w[i])
    requires CollapseWhitespace(a[k..] + w + b) == CollapseWhitespace(a[k..]) + " " + CollapseWhitespace(b)
    ensures CollapseWhitespace(a + w + b) == CollapseWhitespace(a) + " " + CollapseWhitespace(b)
  {
    var s := a + w + b;
    var a' := a[k..];
    DropFromConcat(a, w, b, k);
    var head := if IsSpace(a[0]) then " " else [a[0]];
    if IsSpace(a[0]) {
      SpacesFromExact(s, 0, k);
      CollapseSpaceHead(s);
      CollapseSpaceHead(a);
    } else {
      CollapseCharHead(s);
      CollapseCharHead(a);
    }
    var ca, cb := CollapseWhitespace(a'), CollapseWhitespace(b);
    assert CollapseWhitespace(s) == head + (ca + " " + cb);
    assert CollapseWhitespace(a) == head + ca;
    ConcatAssoc(head, ca, " ");
    ConcatAssoc(head, ca + " ", cb);
  }

  lemma CollapseSpaceHead(s: string)
    requires s != [] && IsSpace(s[0])
    ensures CollapseWhitespace(s) == " " + CollapseWhitespace(s[SpacesFrom(s, 0)..])
  {
  }

  lemma CollapseCharHead(s: string)
    requires s != [] && !IsSpace(s[0])
    ensures CollapseWhitespace(s) == [s[0]] + CollapseWhitespace(s[1..])
  {
  }

  /** Collapsing is idempotent: collapsed text is left as it is. */
  lemma {:induction false} CollapseCollapsed(s: string)
    requires Collapsed(s)
    ensures CollapseWhitespace(s) == s
    decreases |s|
  {
    if s != [] {
      CollapsedTail(s);
      CollapseCollapsed(s[1..]);
      if IsSpace(s[0]) {
        SpacesFromExact(s, 0, 1);
      }
    }
  }

  lemma CollapsedTail(s: string)
    requires Collapsed(s) && s != []
    ensures Collapsed(s[1..])
  {
    forall i | 0 <= i < |s[1..]| && IsSpace(s[1..][i])
      ensures s[1..][i] == ' ' && (i + 1 == |s[1..]| || !IsSpace(s[1..][i + 1]))
    {
      assert s[1..][i] == s[i + 1];
    }
  }

  lemma CollapseIdempotent(s: string)
    ensures CollapseWhitespace(CollapseWhitespace(s)) == CollapseWhitespace(s)
  {
    CollapseCollapsed(CollapseWhitespace(s));
  }

  // ---------------------------------------------------------------------------
  // Sequences
  // ---------------------------------------------------------------------------

  lemma ConcatAssoc<T>(a: seq<T>, b: seq<T>, c: seq<T>)
    ensures a + (b + c) == (a + b) + c
  {
  }

  lemma DropFromConcat<T>(a: seq<T>, w: seq<T>, b: seq<T>, k: nat)
    requires k <= |a|
    ensures (a + w + b)[k..] == a[k..] + w + b
  {
  }

  lemma DropAfterEmpty<T>(a: seq<T>, w: seq<T>, b: seq<T>)
    requires a == []
    ensures |a + w + b| == |w| + |b| && (a + w + b)[|w|..] == b
    ensures forall i :: 0 <= i < |w| ==> (a + w + b)[i] == w[i]
    ensures |b| > 0 ==> (a + w + b)[|w|] == b[0]
  {
    assert a + w + b == w + b;
  }

  lemma EmptyLeft<T>(e: seq<T>, x: seq<T>)
    requires e == []
    ensures e + x == x
  {
  }

  lemma Reassociate<T>(a: seq<T>, b: seq<T>, c: seq<T>, e: seq<T>, f: seq<T>)
    ensures (a + b) + ((c + e) + f) == ((a + b + c) + e) + f
  {
  }

  lemma ThreeParts<T>(x: seq<T>, y: seq<T>, z: seq<T>)
    ensures (x + y + z)[|x|..] == y + z
    ensures (x + y + z)[|x + y + z| - |z|..] == z
  {
  }

  lemma HeadTail<T>(s: seq<T>)
    requires s != []
    ensures s == [s[0]] + s[1..]
  {
  }
}
