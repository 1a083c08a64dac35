/**
 * Character-class string helpers (string.go).
 *
 * Each regular expression of the form `[^CLASS]` replaced by "" keeps
 * exactly the characters of CLASS, in order; it is modelled as `Keep`, a
 * filter by a character predicate. Characters are Unicode scalar values,
 * which is what Go's regexp matches against in a valid UTF-8 string.
 */
module Strings {

  /*** Character classes ***/

  /** `[0-9]` */
  predicate IsDigit(c: char) { '0' <= c <= '9' }

  /** `[a-zA-Z0-9]` */
  predicate IsAlphaNum(c: char) { 'a' <= c <= 'z' || 'A' <= c <= 'Z' || IsDigit(c) }

  /** `[؀-ۿﮊپچگa-zA-Z0-9]`: Arabic block, Persian letters, ASCII alphanumerics. */
  predicate IsAlphaNumPersian(c: char)
  {
    ('\U{0600}' <= c <= '\U{06FF}') || c == '\U{FB8A}' || c == '\U{067E}' || c == '\U{0686}' || c == '\U{06AF}'
    || IsAlphaNum(c)
  }

  /** The regular-expression class `\s` of Go's regexp (RE2): `[\t\n\f\r ]`. */
  predicate IsRegexSpace(c: char) { c == '\t' || c == '\n' || c == '\U{0C}' || c == '\r' || c == ' ' }

  /** The class `[\s\-]` whose maximal runs Slugify turns into one dash. */
  predicate IsSlugSeparator(c: char) { IsRegexSpace(c) || c == '-' }

  /** Go's unicode.IsSpace, the test strings.TrimSpace trims by. */
  predicate IsUnicodeSpace(c: char)
  {
    c == '\t' || c == '\n' || c == '\U{0B}' || c == '\U{0C}' || c == '\r' || c == ' '
    || c == '\U{85}' || c == '\U{A0}' || c == '\U{1680}'
    || ('\U{2000}' <= c <= '\U{200A}')
    || c == '\U{2028}' || c == '\U{2029}' || c == '\U{202F}' || c == '\U{205F}' || c == '\U{3000}'
  }

  /*** Filtering ***/

  /** The elements of `s` that satisfy `keep`, in their original order. */
  function Keep<T>(s: seq<T>, keep: T -> bool): seq<T>
  {
    if s == [] then []
    else (if keep(s[0]) then [s[0]] else []) + Keep(s[1..], keep)
  }

  /** Only kept elements come out, and never more of them than went in. */
  lemma {:induction false} KeepSound<T>(s: seq<T>, keep: T -> bool)
    ensures |Keep(s, keep)| <= |s|
    ensures forall i :: 0 <= i < |Keep(s, keep)| ==> keep(Keep(s, keep)[i])
  {
    if s != [] {
      KeepSound(s[1..], keep);
    }
  }

  /** Every kept value occurs as often as in `s`; every other value not at all. */
  lemma {:induction false} KeepCounts<T>(s: seq<T>, keep: T -> bool, x: T)
    ensures multiset(Keep(s, keep))[x] == if keep(x) then multiset(s)[x] else 0
  {
    if s != [] {
      assert s == [s[0]] + s[1..];
      KeepCounts(s[1..], keep, x);
    }
  }

  /** Filtering distributes over concatenation, so the kept order is the original order. */
  lemma {:induction false} KeepAppend<T>(a: seq<T>, b: seq<T>, keep: T -> bool)
    ensures Keep(a + b, keep) == Keep(a, keep) + Keep(b, keep)
  {
    if a == [] {
      assert a + b == b;
    } else {
      var head := if keep(a[0]) then [a[0]] else [];
      assert (a + b)[0] == a[0];
      assert (a + b)[1..] == a[1..] + b;
      calc {
        Keep(a + b, keep);
        head + Keep(a[1..] + b, keep);
        { KeepAppend(a[1..], b, keep); }
        head + (Keep(a[1..], keep) + Keep(b, keep));
        (head + Keep(a[1..], keep)) + Keep(b, keep);
      }
    }
  }

  /** A sequence whose every element is kept is left unchanged. */
  lemma {:induction false} KeepAll<T>(s: seq<T>, keep: T -> bool)
    requires forall i :: 0 <= i < |s| ==> keep(s[i])
    ensures Keep(s, keep) == s
  {
    if s != [] {
      KeepAll(s[1..], keep);
    }
  }

  /** A sequence with no element kept filters to nothing. */
  lemma {:induction false} KeepNone<T>(s: seq<T>, keep: T -> bool)
    requires forall i :: 0 <= i < |s| ==> !keep(s[i])
    ensures Keep(s, keep) == []
  {
    if s != [] {
      KeepNone(s[1..], keep);
    }
  }

  /** Filtering by a wider class first changes nothing; in particular filtering is idempotent. */
  lemma {:induction false} KeepNarrow<T>(s: seq<T>, wide: T -> bool, narrow: T -> bool)
    requires forall x :: narrow(x) ==> wide(x)
    ensures Keep(Keep(s, wide), narrow) == Keep(s, narrow)
  {
    if s != [] {
      KeepNarrow(s[1..], wide, narrow);
      var head := if narrow(s[0]) then [s[0]] else [];
      if wide(s[0]) {
        KeepAppend([s[0]], Keep(s[1..], wide), narrow);
        assert [s[0]][1..] == [];
        assert Keep([s[0]], narrow) == head + Keep([], narrow) == head;
      } else {
        assert !narrow(s[0]);
        assert Keep(s, wide) == [] + Keep(s[1..], wide) == Keep(s[1..], wide);
      }
      assert Keep(s, narrow) == head + Keep(s[1..], narrow);
    }
  }

  /*** ExtractNumbers, ExtractAlphaNum, ExtractAlphaNumPersian ***/

  /** ExtractNumbers: the ASCII digits of `s`, in order. */
  function ExtractNumbers(s: string): (r: string)
    ensures |r| <= |s|
    ensures forall i :: 0 <= i < |r| ==> IsDigit(r[i])
  {
    KeepSound(s, IsDigit);
    Keep(s, IsDigit)
  }

  /** The class `[a-zA-Z0-9` followed by the fragment `includes` and `]`. */
  function AlphaNumOr(includes: char -> bool): char -> bool
  {
    c => IsAlphaNum(c) || includes(c)
  }

  /** The class `[\u0600-\u06FF\uFB8A\u067E\u0686\u06AFa-zA-Z0-9` followed by `includes` and `]`. */
  function AlphaNumPersianOr(includes: char -> bool): char -> bool
  {
    c => IsAlphaNumPersian(c) || includes(c)
  }

  /**
   * ExtractAlphaNum: the characters of `s` in `[a-zA-Z0-9]` or in the extra
   * class `includes` (the class fragment the extra arguments spell out).
   */
  function ExtractAlphaNum(s: string, includes: char -> bool): (r: string)
    ensures |r| <= |s|
    ensures forall i :: 0 <= i < |r| ==> IsAlphaNum(r[i]) || includes(r[i])
  {
    var keep := AlphaNumOr(includes);
    KeepSound(s, keep);
    Keep(s, keep)
  }

  /** ExtractAlphaNumPersian: as ExtractAlphaNum with the Persian letters added to the class. */
  function ExtractAlphaNumPersian(s: string, includes: char -> bool): (r: string)
    ensures |r| <= |s|
    ensures forall i :: 0 <= i < |r| ==> IsAlphaNumPersian(r[i]) || includes(r[i])
  {
    var keep := AlphaNumPersianOr(includes);
    KeepSound(s, keep);
    Keep(s, keep)
  }

  /**
   * ExtractNumbers drops nothing but non-digits: each digit occurs in the
   * result as often as in `s`, no other character occurs, a string of
   * digits comes back unchanged, and extracting twice is extracting once.
   */
  lemma ExtractNumbersExact(s: string)
    ensures forall c :: multiset(ExtractNumbers(s))[c] == if IsDigit(c) then multiset(s)[c] else 0
    ensures (forall i :: 0 <= i < |s| ==> IsDigit(s[i])) ==> ExtractNumbers(s) == s
    ensures ExtractNumbers(ExtractNumbers(s)) == ExtractNumbers(s)
  {
    forall c {
      KeepCounts(s, IsDigit, c);
    }
    if forall i :: 0 <= i < |s| ==> IsDigit(s[i]) {
      KeepAll(s, IsDigit);
    }
    KeepNarrow(s, IsDigit, IsDigit);
  }

  /**
   * ExtractAlphaNum keeps every character of its class as often as it
   * occurs, and nothing else; whatever `includes` adds, the alphanumerics
   * of `s` all come through, in order.
   */
  lemma ExtractAlphaNumExact(s: string, includes: char -> bool)
    ensures forall c :: multiset(ExtractAlphaNum(s, includes))[c] == if IsAlphaNum(c) || includes(c) then multiset(s)[c] else 0
    ensures Keep(ExtractAlphaNum(s, includes), IsAlphaNum) == Keep(s, IsAlphaNum)
  {
    forall c {
      KeepCounts(s, AlphaNumOr(includes), c);
    }
    KeepNarrow(s, AlphaNumOr(includes), IsAlphaNum);
  }

  /** The same for ExtractAlphaNumPersian and its wider class. */
  lemma ExtractAlphaNumPersianExact(s: string, includes: char -> bool)
    ensures forall c ::
              multiset(ExtractAlphaNumPersian(s, includes))[c] == if IsAlphaNumPersian(c) || includes(c) then multiset(s)[c] else 0
    ensures Keep(ExtractAlphaNumPersian(s, includes), IsAlphaNumPersian) == Keep(s, IsAlphaNumPersian)
  {
    forall c {
      KeepCounts(s, AlphaNumPersianOr(includes), c);
    }
    KeepNarrow(s, AlphaNumPersianOr(includes), IsAlphaNumPersian);
  }

  /** Runs of digits between runs of other characters are kept and concatenated. */
  lemma ExtractNumbersOfRuns(a: string, d1: string, b: string, d2: string)
    requires forall i :: 0 <= i < |a| ==> !IsDigit(a[i])
    requires forall i :: 0 <= i < |b| ==> !IsDigit(b[i])
    requires forall i :: 0 <= i < |d1| ==> IsDigit(d1[i])
    requires forall i :: 0 <= i < |d2| ==> IsDigit(d2[i])
    ensures ExtractNumbers(a + d1 + b + d2) == d1 + d2
  {
    assert Keep(a + d1, IsDigit) == d1 by {
      KeepNone(a, IsDigit);
      KeepAll(d1, IsDigit);
      KeepAppend(a, d1, IsDigit);
    }
    assert Keep(a + d1 + b, IsDigit) == d1 by {
      KeepNone(b, IsDigit);
      KeepAppend(a + d1, b, IsDigit);
      assert d1 + [] == d1;
    }
    assert Keep(d2, IsDigit) == d2 by { KeepAll(d2, IsDigit); }
    KeepAppend(a + d1 + b, d2, IsDigit);
  }

  /** The character classes of the pieces of the worked example below. */
  lemma ExtractNumbersExamplePieces()
    ensures forall i :: 0 <= i < |"abc"| ==> !IsDigit("abc"[i])
    ensures forall i :: 0 <= i < |"def"| ==> !IsDigit("def"[i])
    ensures forall i :: 0 <= i < |"123"| ==> IsDigit("123"[i])
    ensures forall i :: 0 <= i < |"456"| ==> IsDigit("456"[i])
  {
  }

  /** The worked example: ExtractNumbers("abc123def456") is "123456". */
  lemma ExtractNumbersExample()
    ensures ExtractNumbers("abc123def456") == "123456"
  {
    ExtractNumbersExamplePieces();
    ExtractNumbersOfRuns("abc", "123", "def", "456");
    assert "abc" + "123" + "def" + "456" == "abc123def456";
    assert "123" + "456" == "123456";
  }

  /** A dropped run between two kept runs disappears and the kept runs close up. */
  lemma KeepOfRuns(kept1: string, dropped: string, kept2: string, keep: char -> bool)
    requires forall i :: 0 <= i < |kept1| ==> keep(kept1[i])
    requires forall i :: 0 <= i < |dropped| ==> !keep(dropped[i])
    requires forall i :: 0 <= i < |kept2| ==> keep(kept2[i])
    ensures Keep(kept1 + dropped + kept2, keep) == kept1 + kept2
  {
    assert Keep(kept1, keep) == kept1 by { KeepAll(kept1, keep); }
    assert Keep(dropped, keep) == [] by { KeepNone(dropped, keep); }
    assert Keep(kept2, keep) == kept2 by { KeepAll(kept2, keep); }
    assert Keep(kept1 + dropped, keep) == kept1 by { KeepAppend(kept1, dropped, keep); }
    KeepAppend(kept1 + dropped, kept2, keep);
  }

  /** The class of ExtractAlphaNum called without extra class fragments: nothing extra. */
  predicate NoExtra(c: char) { false }

  /** The character classes of the pieces of the worked example below. */
  lemma ExtractAlphaNumExamplePieces()
    ensures forall i :: 0 <= i < |"abc123"| ==> IsAlphaNum("abc123"[i])
    ensures forall i :: 0 <= i < |"def456"| ==> IsAlphaNum("def456"[i])
    ensures forall i :: 0 <= i < |"!@_"| ==> !IsAlphaNum("!@_"[i])
  {
  }

  /** The worked example: ExtractAlphaNum("abc123!@_def456") is "abc123def456". */
  lemma ExtractAlphaNumExample()
    ensures ExtractAlphaNum("abc123!@_def456", NoExtra) == "abc123def456"
  {
    var keep := AlphaNumOr(NoExtra);
    forall c ensures keep(c) == IsAlphaNum(c) {
      assert !NoExtra(c);
    }
    ExtractAlphaNumExamplePieces();
    assert "abc123" + "!@_" + "def456" == "abc123!@_def456";
    KeepOfRuns("abc123", "!@_", "def456", keep);
    assert "abc123" + "def456" == "abc123def456";
  }

  /*** Joining ***/

  /** strings.Join: the parts with `sep` between consecutive ones. */
  function Join(parts: seq<string>, sep: string): string
  {
    if parts == [] then ""
    else if |parts| == 1 then parts[0]
    else parts[0] + sep + Join(parts[1..], sep)
  }

  /** Joining one more part appends the separator and that part. */
  lemma {:induction false} JoinAppend(parts: seq<string>, x: string, sep: string)
    requires parts != []
    ensures Join(parts + [x], sep) == Join(parts, sep) + sep + x
  {
    if |parts| > 1 {
      assert (parts + [x])[1..] == parts[1..] + [x];
      JoinAppend(parts[1..], x, sep);
    } else {
      assert (parts + [x])[1..] == [x];
    }
  }

  /*** Slugify, SlugifyPersian ***/

  /**
   * Replaces every maximal run of separator characters by a single "-".
   * `inRun` says that the character before `s` was a separator already
   * replaced.
   */
  function CollapseRuns(s: string, inRun: bool): string
  {
    if s == [] then []
    else if IsSlugSeparator(s[0]) then
      if inRun then CollapseRuns(s[1..], true) else "-" + CollapseRuns(s[1..], true)
    else [s[0]] + CollapseRuns(s[1..], false)
  }

  predicate NotSeparator(c: char) { !IsSlugSeparator(c) }

  /**
   * What collapsing leaves: every character is a dash or a non-separator
   * character of the input, no two dashes are adjacent, and inside a run
   * the output does not start with another dash.
   */
  lemma {:induction false} CollapseRunsShape(s: string, inRun: bool)
    ensures forall i :: 0 <= i < |CollapseRuns(s, inRun)| ==>
      CollapseRuns(s, inRun)[i] == '-' || (NotSeparator(CollapseRuns(s, inRun)[i]) && CollapseRuns(s, inRun)[i] in s)
    ensures forall i :: 0 <= i < |CollapseRuns(s, inRun)| - 1 ==>
      !(CollapseRuns(s, inRun)[i] == '-' && CollapseRuns(s, inRun)[i + 1] == '-')
    ensures inRun && CollapseRuns(s, inRun) != [] ==> CollapseRuns(s, inRun)[0] != '-'
  {
    if s != [] {
      var sep := IsSlugSeparator(s[0]);
      CollapseRunsShape(s[1..], sep);
      var rest := CollapseRuns(s[1..], sep);
      var head: string := if !sep then [s[0]] else if inRun then [] else "-";
      var r := CollapseRuns(s, inRun);
      assert r == head + rest;
      forall i | 0 <= i < |r|
        ensures r[i] == '-' || (NotSeparator(r[i]) && r[i] in s)
      {
        if i >= |head| {
          assert r[i] == rest[i - |head|];
          assert rest[i - |head|] == '-' || rest[i - |head|] in s[1..];
        }
      }
    }
  }

  /** Collapsing touches separators only: the other characters pass through in order. */
  lemma {:induction false} CollapseRunsKeepsText(s: string, inRun: bool)
    ensures Keep(CollapseRuns(s, inRun), NotSeparator) == Keep(s, NotSeparator)
  {
    if s != [] {
      CollapseRunsKeepsText(s[1..], IsSlugSeparator(s[0]));
      if IsSlugSeparator(s[0]) && !inRun {
        KeepAppend("-", CollapseRuns(s[1..], true), NotSeparator);
      } else if !IsSlugSeparator(s[0]) {
        KeepAppend([s[0]], CollapseRuns(s[1..], false), NotSeparator);
      }
    }
  }

  /** Whether a separator run is open after scanning `a`, having started with `inRun`. */
  function InRunAfter(a: string, inRun: bool): bool
  {
    if a == [] then inRun else IsSlugSeparator(a[|a| - 1])
  }

  /** Collapsing can be done piecewise, carrying whether a run is open across the cut. */
  lemma {:induction false} CollapseRunsAppend(a: string, b: string, inRun: bool)
    ensures CollapseRuns(a + b, inRun) == CollapseRuns(a, inRun) + CollapseRuns(b, InRunAfter(a, inRun))
  {
    if a == [] {
      assert a + b == b;
    } else {
      assert (a + b)[1..] == a[1..] + b;
      CollapseRunsAppend(a[1..], b, IsSlugSeparator(a[0]));
      assert InRunAfter(a[1..], IsSlugSeparator(a[0])) == InRunAfter(a, inRun);
    }
  }

  /** Text without separators is left exactly as it is. */
  lemma {:induction false} CollapseRunsNoSeparators(s: string, inRun: bool)
    requires forall i :: 0 <= i < |s| ==> NotSeparator(s[i])
    ensures CollapseRuns(s, inRun) == s
  {
    if s != [] {
      CollapseRunsNoSeparators(s[1..], false);
    }
  }

  /**
   * Collapsing text made of letters and separators: the result is made of
   * letters and single dashes, and its letters are those of the text, in order.
   */
  lemma SlugShape(normalized: string, isLetter: char -> bool)
    requires forall c :: isLetter(c) ==> NotSeparator(c)
    requires forall i :: 0 <= i < |normalized| ==> isLetter(normalized[i]) || IsSlugSeparator(normalized[i])
    ensures forall i :: 0 <= i < |CollapseRuns(normalized, false)| ==>
      CollapseRuns(normalized, false)[i] == '-' || isLetter(CollapseRuns(normalized, false)[i])
    ensures forall i :: 0 <= i < |CollapseRuns(normalized, false)| - 1 ==>
      !(CollapseRuns(normalized, false)[i] == '-' && CollapseRuns(normalized, false)[i + 1] == '-')
    ensures Keep(CollapseRuns(normalized, false), isLetter) == Keep(normalized, isLetter)
  {
    CollapseRunsShape(normalized, false);
    CollapseRunsKeepsText(normalized, false);
    KeepNarrow(CollapseRuns(normalized, false), NotSeparator, isLetter);
    KeepNarrow(normalized, NotSeparator, isLetter);
  }

  /**
   * Slugify: the parts joined with a space, reduced to `[a-zA-Z0-9]` and
   * `[\s\-]`, with every separator run turned into one dash.
   */
  function Slugify(parts: seq<string>): string
  {
    CollapseRuns(ExtractAlphaNum(Join(parts, " "), IsSlugSeparator), false)
  }

  /** SlugifyPersian: as Slugify, with the Persian letters kept as well. */
  function SlugifyPersian(parts: seq<string>): string
  {
    CollapseRuns(ExtractAlphaNumPersian(Join(parts, " "), IsSlugSeparator), false)
  }

  /**
   * A slug is made of alphanumerics and single dashes, and keeps every
   * alphanumeric of the parts, in order.
   */
  lemma SlugifyShape(parts: seq<string>)
    ensures forall i :: 0 <= i < |Slugify(parts)| ==> Slugify(parts)[i] == '-' || IsAlphaNum(Slugify(parts)[i])
    ensures forall i :: 0 <= i < |Slugify(parts)| - 1 ==> !(Slugify(parts)[i] == '-' && Slugify(parts)[i + 1] == '-')
    ensures Keep(Slugify(parts), IsAlphaNum) == Keep(Join(parts, " "), IsAlphaNum)
  {
    ExtractAlphaNumExact(Join(parts, " "), IsSlugSeparator);
    SlugShape(ExtractAlphaNum(Join(parts, " "), IsSlugSeparator), IsAlphaNum);
  }

  /**
   * A Persian slug is made of English and Persian letters, digits and single
   * dashes, and keeps every such character of the parts, in order.
   */
  lemma SlugifyPersianShape(parts: seq<string>)
    ensures forall i :: 0 <= i < |SlugifyPersian(parts)| ==>
      SlugifyPersian(parts)[i] == '-' || IsAlphaNumPersian(SlugifyPersian(parts)[i])
    ensures forall i :: 0 <= i < |SlugifyPersian(parts)| - 1 ==>
      !(SlugifyPersian(parts)[i] == '-' && SlugifyPersian(parts)[i + 1] == '-')
    ensures Keep(SlugifyPersian(parts), IsAlphaNumPersian) == Keep(Join(parts, " "), IsAlphaNumPersian)
  {
    ExtractAlphaNumPersianExact(Join(parts, " "), IsSlugSeparator);
    SlugShape(ExtractAlphaNumPersian(Join(parts, " "), IsSlugSeparator), IsAlphaNumPersian);
  }

  /** A non-empty run of separators collapses to one dash, or to nothing inside an open run. */
  lemma {:induction false} CollapseRunsAllSeparators(s: string, inRun: bool)
    requires s != []
    requires forall i :: 0 <= i < |s| ==> IsSlugSeparator(s[i])
    ensures CollapseRuns(s, inRun) == if inRun then "" else "-"
    ensures InRunAfter(s, inRun)
  {
    if |s| > 1 {
      CollapseRunsAllSeparators(s[1..], true);
    }
  }

  /** A separator run followed by a word collapses to one dash and the word. */
  lemma CollapseRunThenWord(run: string, w: string)
    requires run != [] && forall i :: 0 <= i < |run| ==> IsSlugSeparator(run[i])
    requires forall i :: 0 <= i < |w| ==> NotSeparator(w[i])
    ensures CollapseRuns(run + w, false) == "-" + w
  {
    CollapseRunsAllSeparators(run, false);
    CollapseRunsNoSeparators(w, true);
    CollapseRunsAppend(run, w, false);
  }

  /** Words around a separator run collapse to the words joined by one dash. */
  lemma CollapseBetweenWords(w1: string, run: string, w2: string)
    requires forall i :: 0 <= i < |w1| ==> NotSeparator(w1[i])
    requires forall i :: 0 <= i < |w2| ==> NotSeparator(w2[i])
    requires run != [] && forall i :: 0 <= i < |run| ==> IsSlugSeparator(run[i])
    ensures CollapseRuns(w1 + (run + w2), false) == w1 + "-" + w2
  {
    CollapseRunThenWord(run, w2);
    CollapseRunsNoSeparators(w1, false);
    CollapseRunsAppend(w1, run + w2, false);
  }

  /**
   * Two words separated by separator runs (the space Join inserts is one,
   * so even no separator in the parts will do), followed by characters the
   * filter `keep` drops, filter and collapse to the words joined by one dash.
   */
  lemma CollapseKeptTwoWords(keep: char -> bool, w1: string, s1: string, s2: string, w2: string, junk: string)
    requires keep(' ')
    requires forall i :: 0 <= i < |w1| ==> keep(w1[i]) && NotSeparator(w1[i])
    requires forall i :: 0 <= i < |w2| ==> keep(w2[i]) && NotSeparator(w2[i])
    requires forall i :: 0 <= i < |s1| ==> keep(s1[i]) && IsSlugSeparator(s1[i])
    requires forall i :: 0 <= i < |s2| ==> keep(s2[i]) && IsSlugSeparator(s2[i])
    requires forall i :: 0 <= i < |junk| ==> !keep(junk[i])
    ensures CollapseRuns(Keep(Join([w1 + s1, s2 + w2 + junk], " "), keep), false) == w1 + "-" + w2
  {
    var run := s1 + " " + s2;
    assert forall i :: 0 <= i < |run| ==> keep(run[i]) && IsSlugSeparator(run[i]) by {
      forall i | 0 <= i < |run| ensures keep(run[i]) && IsSlugSeparator(run[i]) {
        if i < |s1| { assert run[i] == s1[i]; }
        else if i > |s1| { assert run[i] == s2[i - |s1| - 1]; }
      }
    }
    var joined := Join([w1 + s1, s2 + w2 + junk], " ");
    assert Keep(joined, keep) == w1 + (run + w2) by {
      assert [w1 + s1, s2 + w2 + junk][1..] == [s2 + w2 + junk];
      assert Join([s2 + w2 + junk], " ") == s2 + w2 + junk;
      assert joined == w1 + (run + (w2 + junk));
      KeepAppend(w1, run + (w2 + junk), keep);
      KeepAppend(run, w2 + junk, keep);
      KeepAppend(w2, junk, keep);
      KeepAll(w1, keep);
      KeepAll(run, keep);
      KeepAll(w2, keep);
      KeepNone(junk, keep);
      assert Keep(w2 + junk, keep) == w2 + [] == w2;
    }
    CollapseBetweenWords(w1, run, w2);
  }

  /** Slugify joins two alphanumeric words around any separators with one dash and drops the rest. */
  lemma SlugifyTwoWords(w1: string, s1: string, s2: string, w2: string, junk: string)
    requires forall i :: 0 <= i < |w1| ==> IsAlphaNum(w1[i])
    requires forall i :: 0 <= i < |w2| ==> IsAlphaNum(w2[i])
    requires forall i :: 0 <= i < |s1| ==> IsSlugSeparator(s1[i])
    requires forall i :: 0 <= i < |s2| ==> IsSlugSeparator(s2[i])
    requires forall i :: 0 <= i < |junk| ==> !IsAlphaNum(junk[i]) && !IsSlugSeparator(junk[i])
    ensures Slugify([w1 + s1, s2 + w2 + junk]) == w1 + "-" + w2
  {
    var keep := AlphaNumOr(IsSlugSeparator);
    assert forall c :: keep(c) == (IsAlphaNum(c) || IsSlugSeparator(c));
    CollapseKeptTwoWords(keep, w1, s1, s2, w2, junk);
  }

  /** SlugifyPersian does the same for words of English and Persian letters and digits. */
  lemma SlugifyPersianTwoWords(w1: string, s1: string, s2: string, w2: string, junk: string)
    requires forall i :: 0 <= i < |w1| ==> IsAlphaNumPersian(w1[i])
    requires forall i :: 0 <= i < |w2| ==> IsAlphaNumPersian(w2[i])
    requires forall i :: 0 <= i < |s1| ==> IsSlugSeparator(s1[i])
    requires forall i :: 0 <= i < |s2| ==> IsSlugSeparator(s2[i])
    requires forall i :: 0 <= i < |junk| ==> !IsAlphaNumPersian(junk[i]) && !IsSlugSeparator(junk[i])
    ensures SlugifyPersian([w1 + s1, s2 + w2 + junk]) == w1 + "-" + w2
  {
    var keep := AlphaNumPersianOr(IsSlugSeparator);
    assert forall c :: keep(c) == (IsAlphaNumPersian(c) || IsSlugSeparator(c));
    CollapseKeptTwoWords(keep, w1, s1, s2, w2, junk);
  }

  /** The character classes of the pieces of the worked example below. */
  lemma SlugifyExamplePieces()
    ensures forall i :: 0 <= i < |"Hello"| ==> IsAlphaNum("Hello"[i])
    ensures forall i :: 0 <= i < |"World"| ==> IsAlphaNum("World"[i])
    ensures forall i :: 0 <= i < |"-- "| ==> IsSlugSeparator("-- "[i])
    ensures forall i :: 0 <= i < |"  "| ==> IsSlugSeparator("  "[i])
    ensures forall i :: 0 <= i < |"!"| ==> !IsAlphaNum("!"[i]) && !IsSlugSeparator("!"[i])
  {
  }

  /** The worked example: Slugify("Hello-- ", "  World!") is "Hello-World". */
  lemma SlugifyExample()
    ensures Slugify(["Hello-- ", "  World!"]) == "Hello-World"
  {
    assert "Hello" + "-- " == "Hello-- ";
    assert "  " + "World" + "!" == "  World!";
    assert ["Hello-- ", "  World!"] == ["Hello" + "-- ", "  " + "World" + "!"];
    SlugifyExamplePieces();
    SlugifyTwoWords("Hello", "-- ", "  ", "World", "!");
    assert "Hello" + "-" + "World" == "Hello-World";
  }

  /** The character classes of the pieces of the Persian worked example below. */
  lemma SlugifyPersianExamplePieces()
    ensures forall i :: 0 <= i < |"\U{0633}\U{0644}\U{0627}\U{0645}"| ==>
      IsAlphaNumPersian("\U{0633}\U{0644}\U{0627}\U{0645}"[i])
    ensures forall i :: 0 <= i < |"\U{062F}\U{0646}\U{06CC}\U{0627}"| ==>
      IsAlphaNumPersian("\U{062F}\U{0646}\U{06CC}\U{0627}"[i])
    ensures forall i :: 0 <= i < |"!"| ==> !IsAlphaNumPersian("!"[i]) && !IsSlugSeparator("!"[i])
  {
  }

  /**
   * The worked example: SlugifyPersian("salam", "donya!") written in Persian
   * letters is "salam-donya".
   */
  lemma SlugifyPersianExample()
    ensures SlugifyPersian(["\U{0633}\U{0644}\U{0627}\U{0645}", "\U{062F}\U{0646}\U{06CC}\U{0627}!"])
      == "\U{0633}\U{0644}\U{0627}\U{0645}-\U{062F}\U{0646}\U{06CC}\U{0627}"
  {
    assert "\U{0633}\U{0644}\U{0627}\U{0645}" + "" == "\U{0633}\U{0644}\U{0627}\U{0645}";
    assert "" + "\U{062F}\U{0646}\U{06CC}\U{0627}" + "!" == "\U{062F}\U{0646}\U{06CC}\U{0627}!";
    assert ["\U{0633}\U{0644}\U{0627}\U{0645}", "\U{062F}\U{0646}\U{06CC}\U{0627}!"]
      == ["\U{0633}\U{0644}\U{0627}\U{0645}" + "", "" + "\U{062F}\U{0646}\U{06CC}\U{0627}" + "!"];
    SlugifyPersianExamplePieces();
    SlugifyPersianTwoWords("\U{0633}\U{0644}\U{0627}\U{0645}", "", "", "\U{062F}\U{0646}\U{06CC}\U{0627}", "!");
    assert "\U{0633}\U{0644}\U{0627}\U{0645}" + "-" + "\U{062F}\U{0646}\U{06CC}\U{0627}"
      == "\U{0633}\U{0644}\U{0627}\U{0645}-\U{062F}\U{0646}\U{06CC}\U{0627}";
  }

  /*** Concat ***/

  /** strings.TrimSpace(s) == "": `s` is made of white space only. */
  predicate IsBlank(s: string)
  {
    forall i :: 0 <= i < |s| ==> IsUnicodeSpace(s[i])
  }

  predicate NotBlank(s: string) { !IsBlank(s) }

  /** Concat: the parts that are not blank, in order, joined with `sep`. */
  method Concat(sep: string, parts: seq<string>) returns (r: string)
    ensures r == Join(Keep(parts, NotBlank), sep)
  {
    var res: seq<string> := [];
    for i := 0 to |parts|
      invariant res == Keep(parts[..i], NotBlank)
    {
      KeepAppend(parts[..i], [parts[i]], NotBlank);
      assert parts[..i + 1] == parts[..i] + [parts[i]];
      if !IsBlank(parts[i]) {
        res := res + [parts[i]];
      }
    }
    assert parts[..|parts|] == parts;
    r := Join(res, sep);
  }

  /** When every part is blank there is nothing to join, and Concat gives "". */
  lemma ConcatAllBlank(sep: string, parts: seq<string>)
    requires forall i :: 0 <= i < |parts| ==> IsBlank(parts[i])
    ensures Join(Keep(parts, NotBlank), sep) == ""
  {
    KeepNone(parts, NotBlank);
  }

  /** The worked example: Concat(" ", "Hello", "", "      ", "World") is "Hello World". */
  lemma ConcatExample()
    ensures Join(Keep(["Hello", "", "      ", "World"], NotBlank), " ") == "Hello World"
  {
    assert !IsUnicodeSpace("Hello"[0]) && !IsUnicodeSpace("World"[0]);
    assert IsBlank("      ") by {
      forall i | 0 <= i < 6 ensures "      "[i] == ' ' { }
    }
    assert Keep(["Hello", "", "      ", "World"], NotBlank) == ["Hello", "World"];
  }

  /*** RandomString, RandomNumeric, RandomAlphaNum ***/

  /**
   * RandomString: `n` characters, the i-th being `characters[draws[i]]`.
   * `draws` stands for the successive results of the random source's
   * Intn(len(characters)), each in [0, len(characters)).
   */
  method RandomString(n: nat, characters: string, draws: seq<nat>) returns (r: string)
    requires |draws| == n
    requires forall i :: 0 <= i < n ==> draws[i] < |characters|
    ensures |r| == n
    ensures forall i :: 0 <= i < n ==> r[i] == characters[draws[i]]
    ensures forall i :: 0 <= i < n ==> r[i] in characters
  {
    var result := new char[n];
    for i := 0 to n
      invariant forall k :: 0 <= k < i ==> result[k] == characters[draws[k]]
    {
      result[i] := characters[draws[i]];
    }
    r := result[..];
  }

  /** RandomNumeric: `n` characters drawn from the ten digits. */
  method RandomNumeric(n: nat, draws: seq<nat>) returns (r: string)
    requires |draws| == n
    requires forall i :: 0 <= i < n ==> draws[i] < 10
    ensures |r| == n
    ensures forall i :: 0 <= i < n ==> IsDigit(r[i])
  {
    r := RandomString(n, "0123456789", draws);
  }

  /** RandomAlphaNum: `n` characters drawn from `[A-Z0-9]`. */
  method RandomAlphaNum(n: nat, draws: seq<nat>) returns (r: string)
    requires |draws| == n
    requires forall i :: 0 <= i < n ==> draws[i] < 36
    ensures |r| == n
    ensures forall i :: 0 <= i < n ==> 'A' <= r[i] <= 'Z' || IsDigit(r[i])
  {
    r := RandomString(n, UpperAlphaNum, draws);
    forall i | 0 <= i < n
      ensures 'A' <= r[i] <= 'Z' || IsDigit(r[i])
    {
      UpperAlphaNumClass(draws[i]);
    }
  }

  /** The alphabet of RandomAlphaNum: the upper-case letters, then the digits. */
  const UpperAlphaNum := "ABCDEFGHIJKLMNOPQRSTUVWXYZ0123456789"

  lemma UpperAlphaNumClass(k: nat)
    requires k < 36
    ensures 'A' <= UpperAlphaNum[k] <= 'Z' || IsDigit(UpperAlphaNum[k])
  {
    assert UpperAlphaNum == "ABCDEFGHIJKLMNOPQRSTUVWXYZ" + "0123456789";
    if k < 26 {
      assert UpperAlphaNum[k] == "ABCDEFGHIJKLMNOPQRSTUVWXYZ"[k];
    } else {
      assert UpperAlphaNum[k] == "0123456789"[k - 26];
    }
  }
}
