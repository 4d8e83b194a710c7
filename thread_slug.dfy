/**
 * `sanitizeForSlug`: trim, `&` to `and`, drop everything but spaces and word
 * characters, spaces to `-`, collapse runs of `-`, lower-case. Word
 * characters are those of a PCRE `\w` without the Unicode flag: ASCII
 * letters, digits and `_`; `strtolower` folds only ASCII letters.
 */
module ThreadSlug {
  import opened Collections

  /** The characters PHP's `trim` strips by default. */
  predicate IsTrimChar(c: char) {
    c == ' ' || c == '\t' || c == '\n' || c == '\r' || c == '\0' || c == '\U{000B}'
  }

  predicate IsUpper(c: char) { 'A' <= c <= 'Z' }

  predicate IsWordChar(c: char) {
    ('a' <= c <= 'z') || IsUpper(c) || ('0' <= c <= '9') || c == '_'
  }

  /** A character a slug may contain. */
  predicate IsSlugChar(c: char) {
    ('a' <= c <= 'z') || ('0' <= c <= '9') || c == '_' || c == '-'
  }

  predicate HasDoubleDash(s: string) {
    exists i :: 0 <= i < |s| - 1 && s[i] == '-' && s[i + 1] == '-'
  }

  function TrimStart(s: string): (r: string)
    ensures |r| <= |s| && r == s[|s| - |r|..]
    ensures forall i :: 0 <= i < |s| - |r| ==> IsTrimChar(s[i])
    ensures r == [] || !IsTrimChar(r[0])
  {
    if s != [] && IsTrimChar(s[0]) then TrimStart(s[1..]) else s
  }

  function TrimEnd(s: string): (r: string)
    ensures |r| <= |s| && r == s[..|r|]
    ensures forall i :: |r| <= i < |s| ==> IsTrimChar(s[i])
    ensures r == [] || !IsTrimChar(r[|r| - 1])
  {
    if s != [] && IsTrimChar(s[|s| - 1]) then TrimEnd(s[..|s| - 1]) else s
  }

  /** PHP's `trim`: the longest infix without a trim character at either end. */
  function Trim(s: string): string {
    TrimEnd(TrimStart(s))
  }

  predicate IsAmpersand(c: char) { c == '&' }

  predicate IsSpaceOrWordChar(c: char) { c == ' ' || IsWordChar(c) }

  predicate NotDash(c: char) { c != '-' }

  /** `str_replace('&', 'and', s)`. */
  function ReplaceAmpersands(s: string): (r: string)
    ensures '&' !in r
  {
    if s == [] then []
    else (if s[0] == '&' then "and" else [s[0]]) + ReplaceAmpersands(s[1..])
  }

  /** Each `&` replaced makes the string two characters longer. */
  lemma {:induction false} ReplaceAmpersandsLength(s: string)
    ensures |ReplaceAmpersands(s)| == |s| + 2 * Count(s, IsAmpersand)
  {
    if s != [] {
      ReplaceAmpersandsLength(s[1..]);
    }
  }

  /** The replacement works character by character: it distributes over concatenation. */
  lemma {:induction false} ReplaceAmpersandsAppend(a: string, b: string)
    ensures ReplaceAmpersands(a + b) == ReplaceAmpersands(a) + ReplaceAmpersands(b)
  {
    if a == [] {
      assert a + b == b;
    } else {
      var head := if a[0] == '&' then "and" else [a[0]];
      assert (a + b)[0] == a[0] && (a + b)[1..] == a[1..] + b;
      ReplaceAmpersandsAppend(a[1..], b);
      assert ReplaceAmpersands(a + b) == head + (ReplaceAmpersands(a[1..]) + ReplaceAmpersands(b));
    }
  }

  /**
   * Each `&` becomes `and` and every other character stays, in place:
   * whatever surrounds a character is replaced on its own.
   */
  lemma ReplaceAmpersandsSplits(a: string, c: char, b: string)
    ensures ReplaceAmpersands(a + [c] + b) == ReplaceAmpersands(a) + (if c == '&' then "and" else [c]) + ReplaceAmpersands(b)
  {
    ReplaceAmpersandsAppend(a + [c], b);
    ReplaceAmpersandsAppend(a, [c]);
    assert ReplaceAmpersands([c]) == (if c == '&' then "and" else [c]) + ReplaceAmpersands([]);
  }

  /** `preg_replace('/[^ \w]+/', '', s)`: keeps spaces and word characters. */
  function KeepSpacesAndWordChars(s: string): string {
    Filter(s, IsSpaceOrWordChar)
  }

  /** `str_replace(' ', '-', s)`. */
  function SpacesToDashes(s: string): (r: string)
    ensures |r| == |s|
    ensures forall i :: 0 <= i < |s| ==> r[i] == if s[i] == ' ' then '-' else s[i]
  {
    if s == [] then [] else [if s[0] == ' ' then '-' else s[0]] + SpacesToDashes(s[1..])
  }

  /** `preg_replace('/(\-)+/', '-', s)`: every run of `-` becomes one `-`. */
  function CollapseDashes(s: string): (r: string)
    ensures !HasDoubleDash(r)
    ensures s != [] ==> r != [] && r[0] == s[0]
  {
    if |s| >= 2 && s[0] == '-' && s[1] == '-' then CollapseDashes(s[1..])
    else if s == [] then []
    else [s[0]] + CollapseDashes(s[1..])
  }

  /** Collapsing keeps every character other than `-`, in order, and a string with a dash keeps one. */
  lemma {:induction false} CollapseDashesKeepsText(s: string)
    ensures Filter(CollapseDashes(s), NotDash) == Filter(s, NotDash)
    ensures '-' in CollapseDashes(s) <==> '-' in s
  {
    if |s| >= 2 && s[0] == '-' && s[1] == '-' {
      CollapseDashesKeepsText(s[1..]);
      assert s[1..][0] == '-';
    } else if s != [] {
      CollapseDashesKeepsText(s[1..]);
      var rest := CollapseDashes(s[1..]);
      assert ([s[0]] + rest)[1..] == rest;
    }
  }

  /** Two adjacent dashes collapse like one: the run's length does not matter. */
  lemma {:induction false} CollapseDashesMergesRun(a: string, b: string)
    ensures CollapseDashes(a + "--" + b) == CollapseDashes(a + "-" + b)
  {
    if a == [] {
      assert ("--" + b)[1..] == "-" + b;
    } else {
      assert (a + "--" + b)[1..] == a[1..] + "--" + b;
      assert (a + "-" + b)[1..] == a[1..] + "-" + b;
      CollapseDashesMergesRun(a[1..], b);
    }
  }

  function Lower(c: char): char {
    if IsUpper(c) then (c as int - 'A' as int + 'a' as int) as char else c
  }

  /** `strtolower`. */
  function ToLower(s: string): (r: string)
    ensures |r| == |s|
    ensures forall i :: 0 <= i < |s| ==> r[i] == Lower(s[i])
  {
    if s == [] then [] else [Lower(s[0])] + ToLower(s[1..])
  }

  /** `sanitizeForSlug`: the six steps in order. */
  function SanitizeForSlug(s: string): string {
    ToLower(CollapseDashes(SpacesToDashes(KeepSpacesAndWordChars(ReplaceAmpersands(Trim(s))))))
  }

  predicate NeitherSpaceNorDash(c: char) { c != ' ' && c != '-' }

  /**
   * The title's words survive: apart from its dashes, the slug is the
   * lower-cased word characters of the trimmed title with each `&` spelled
   * `and`, in order.
   */
  lemma SanitizeKeepsWordChars(s: string)
    ensures Filter(SanitizeForSlug(s), NotDash) == ToLower(Filter(ReplaceAmpersands(Trim(s)), IsWordChar))
  {
    var x := ReplaceAmpersands(Trim(s));
    var d := SpacesToDashes(KeepSpacesAndWordChars(x));
    CollapseDashesKeepsText(d);
    LowerThenDropDashes(CollapseDashes(d));
    DroppingDashesKeepsWords(x);
  }

  /** Of the kept characters with spaces turned to dashes, the non-dashes are the word characters. */
  lemma DroppingDashesKeepsWords(x: string)
    ensures Filter(SpacesToDashes(KeepSpacesAndWordChars(x)), NotDash) == Filter(x, IsWordChar)
  {
    DashedThenDropDashes(KeepSpacesAndWordChars(x));
    assert forall i :: 0 <= i < |x| ==> IsWordChar(x[i]) == (IsSpaceOrWordChar(x[i]) && NeitherSpaceNorDash(x[i]));
    FilterFilter(x, IsSpaceOrWordChar, NeitherSpaceNorDash, IsWordChar);
  }

  lemma {:induction false} LowerThenDropDashes(s: string)
    ensures Filter(ToLower(s), NotDash) == ToLower(Filter(s, NotDash))
  {
    if s != [] {
      LowerThenDropDashes(s[1..]);
      var low := ToLower(s);
      assert low == [Lower(s[0])] + ToLower(s[1..]);
      assert low[1..] == ToLower(s[1..]);
      var tail := Filter(s[1..], NotDash);
      assert ([s[0]] + tail)[1..] == tail;
    }
  }

  lemma {:induction false} DashedThenDropDashes(s: string)
    ensures Filter(SpacesToDashes(s), NotDash) == Filter(s, NeitherSpaceNorDash)
  {
    if s != [] {
      DashedThenDropDashes(s[1..]);
      var dashed := SpacesToDashes(s);
      assert dashed[1..] == SpacesToDashes(s[1..]);
    }
  }

  ghost predicate WordCharsAndDashes(s: string) {
    forall i :: 0 <= i < |s| ==> IsWordChar(s[i]) || s[i] == '-'
  }

  lemma DashedIsWordCharsAndDashes(s: string)
    ensures WordCharsAndDashes(SpacesToDashes(KeepSpacesAndWordChars(s)))
  {
    var kept := KeepSpacesAndWordChars(s);
    forall i | 0 <= i < |kept| ensures kept[i] == ' ' || IsWordChar(kept[i]) {
      assert kept[i] in kept;
    }
  }

  lemma {:induction false} CollapsedIsWordCharsAndDashes(s: string)
    requires WordCharsAndDashes(s)
    ensures WordCharsAndDashes(CollapseDashes(s))
  {
    CollapseDashesDrawsFrom(s);
    var r := CollapseDashes(s);
    forall i | 0 <= i < |r| ensures IsWordChar(r[i]) || r[i] == '-' {
      var j :| 0 <= j < |s| && s[j] == r[i];
    }
  }

  /**
   * A slug holds only lower-case ASCII letters, digits, `_` and `-`, and
   * never two dashes in a row.
   */
  lemma SanitizeForSlugIsSlug(s: string)
    ensures forall i :: 0 <= i < |SanitizeForSlug(s)| ==> IsSlugChar(SanitizeForSlug(s)[i])
    ensures !HasDoubleDash(SanitizeForSlug(s))
  {
    var dashed := SpacesToDashes(KeepSpacesAndWordChars(ReplaceAmpersands(Trim(s))));
    DashedIsWordCharsAndDashes(ReplaceAmpersands(Trim(s)));
    CollapsedIsWordCharsAndDashes(dashed);
    var collapsed := CollapseDashes(dashed);
    var r := ToLower(collapsed);
    assert !HasDoubleDash(r) by {
      forall i | 0 <= i < |r| - 1 ensures !(r[i] == '-' && r[i + 1] == '-') {
        assert r[i] == '-' ==> collapsed[i] == '-';
        assert r[i + 1] == '-' ==> collapsed[i + 1] == '-';
      }
    }
  }

  /** Every character of a collapsed string comes from the input. */
  lemma {:induction false} CollapseDashesDrawsFrom(s: string)
    ensures forall i :: 0 <= i < |CollapseDashes(s)| ==> CollapseDashes(s)[i] in s
  {
    if s != [] {
      CollapseDashesDrawsFrom(s[1..]);
      var rest := CollapseDashes(s[1..]);
      assert forall c :: c in s[1..] ==> c in s;
      if !(|s| >= 2 && s[0] == '-' && s[1] == '-') {
        var r := CollapseDashes(s);
        assert r == [s[0]] + rest;
        forall i | 0 <= i < |r| ensures r[i] in s {
          if i > 0 {
            assert r[i] == rest[i - 1];
          }
        }
      }
    }
  }

  /** Collapsing leaves a string without a run of dashes unchanged. */
  lemma {:induction false} CollapseDashesKeepsSingles(s: string)
    requires !HasDoubleDash(s)
    ensures CollapseDashes(s) == s
  {
    if s != [] {
      CollapseDashesKeepsSingles(s[1..]);
    }
  }

  /** Without an ampersand there is nothing to replace. */
  lemma {:induction false} ReplaceAmpersandsKeepsPlain(s: string)
    requires '&' !in s
    ensures ReplaceAmpersands(s) == s
  {
    if s != [] {
      assert s == [s[0]] + s[1..];
      ReplaceAmpersandsKeepsPlain(s[1..]);
    }
  }

  ghost predicate SlugChars(r: string) {
    forall i :: 0 <= i < |r| ==> IsSlugChar(r[i])
  }

  /**
   * A slug is not a fixed point: sanitizing it again deletes its dashes and
   * changes nothing else.
   */
  lemma SanitizeTwiceDropsDashes(s: string)
    ensures SanitizeForSlug(SanitizeForSlug(s)) == Filter(SanitizeForSlug(s), NotDash)
  {
    SanitizeForSlugIsSlug(s);
    ResanitizeDropsDashes(SanitizeForSlug(s));
  }

  lemma ResanitizeDropsDashes(r: string)
    requires SlugChars(r)
    ensures SanitizeForSlug(r) == Filter(r, NotDash)
  {
    assert Trim(r) == r by {
      if r != [] {
        assert IsSlugChar(r[0]) && IsSlugChar(r[|r| - 1]);
        TrimsNothing(r);
      }
    }
    assert '&' !in r by {
      forall i | 0 <= i < |r| ensures r[i] != '&' {
        assert IsSlugChar(r[i]);
      }
    }
    ReplaceAmpersandsKeepsPlain(r);
    var keep := IsSpaceOrWordChar;
    var noDash := NotDash;
    assert forall i :: 0 <= i < |r| ==> keep(r[i]) == noDash(r[i]) by {
      forall i | 0 <= i < |r| ensures keep(r[i]) == noDash(r[i]) {
        assert IsSlugChar(r[i]);
      }
    }
    FilterCongruent(r, keep, noDash);
    var kept := Filter(r, noDash);
    NoDashSlugCharsSettle(r, kept);
  }

  lemma NoDashSlugCharsSettle(r: string, kept: string)
    requires SlugChars(r)
    requires kept == Filter(r, NotDash)
    ensures ToLower(CollapseDashes(SpacesToDashes(kept))) == kept
  {
    forall i | 0 <= i < |kept| ensures IsSlugChar(kept[i]) && kept[i] != '-' {
      assert kept[i] in kept;
      var j :| 0 <= j < |r| && r[j] == kept[i];
    }
    assert SpacesToDashes(kept) == kept;
    CollapseDashesKeepsSingles(kept);
    assert ToLower(kept) == kept;
  }

  /** "A & B" becomes "a-and-b". */
  lemma AmpersandBecomesAnd()
    ensures SanitizeForSlug("A & B") == "a-and-b"
  {
    TrimsNothing("A & B");
    AmpersandStep();
    KeepStep();
    DashStep();
    SingleDashesStep();
    CollapseDashesKeepsSingles("A-and-B");
    LowerStep();
  }

  /** A string that neither starts nor ends with a trim character is already trimmed. */
  lemma TrimsNothing(s: string)
    requires s != [] && !IsTrimChar(s[0]) && !IsTrimChar(s[|s| - 1])
    ensures Trim(s) == s
  {
  }

  lemma AmpersandStep()
    ensures ReplaceAmpersands("A & B") == "A and B"
  {
  }

  lemma KeepStep()
    ensures KeepSpacesAndWordChars("A and B") == "A and B"
  {
    var t := "A and B";
    forall i | 0 <= i < |t| ensures IsSpaceOrWordChar(t[i]) {
      assert t[i] in {'A', ' ', 'a', 'n', 'd', 'B'};
    }
    FilterKeepsAll(t, IsSpaceOrWordChar);
  }

  lemma DashStep()
    ensures SpacesToDashes("A and B") == "A-and-B"
  {
  }

  lemma SingleDashesStep()
    ensures !HasDoubleDash("A-and-B")
  {
  }

  lemma LowerStep()
    ensures ToLower("A-and-B") == "a-and-b"
  {
  }
}
