/** The two pure helpers of the article controller: deriving a URL slug from
    a title, and estimating the reading time of an article body. */
module ArticleHelpers {
  import opened JsString

  // ---------------------------------------------------------------------
  // Slug derivation: lowercase, drop specials, hyphenate whitespace runs,
  // collapse hyphen runs, trim.
  // ---------------------------------------------------------------------

  /** The characters `[\w\s-]` keeps. */
  predicate Kept(c: char)
  {
    IsWordChar(c) || IsSpace(c) || c == '-'
  }

  /** `.replace(/[^\w\s-]/g, '')`. */
  function StripSpecial(s: string): (r: string)
    ensures |r| <= |s|
    ensures forall i :: 0 <= i < |r| ==> Kept(r[i])
  {
    if s == [] then []
    else (if Kept(s[0]) then [s[0]] else []) + StripSpecial(s[1..])
  }

  /** Stripping works character by character: the stripped text of a
      concatenation is the concatenation of the stripped parts. */
  lemma {:induction false} StripSpecialAppend(a: string, b: string)
    ensures StripSpecial(a + b) == StripSpecial(a) + StripSpecial(b)
  {
    if a == [] {
      assert a + b == b;
    } else {
      assert (a + b)[1..] == a[1..] + b;
      StripSpecialAppend(a[1..], b);
    }
  }

  /** A single character survives exactly when `[\w\s-]` matches it. Together
      with StripSpecialAppend this fixes the result for every input: the
      kept characters, in their order, and nothing else. */
  lemma StripSpecialChar(c: char)
    ensures StripSpecial([c]) == if Kept(c) then [c] else []
  {
    assert [c][1..] == [];
  }

  /** `.replace(/\s+/g, '-')`, read left to right: every maximal run of
      whitespace becomes one hyphen. `inRun` says whether the character
      before `s` was whitespace (and so already became a hyphen). */
  function HyphenateSpaces(s: string, inRun: bool): string
  {
    if s == [] then []
    else if IsSpace(s[0]) then (if inRun then [] else "-") + HyphenateSpaces(s[1..], true)
    else [s[0]] + HyphenateSpaces(s[1..], false)
  }

  /** `.replace(/--+/g, '-')`: every maximal run of hyphens becomes one
      hyphen. `inRun` says whether the character before `s` was a hyphen. */
  function CollapseHyphens(s: string, inRun: bool): string
  {
    if s == [] then []
    else if s[0] == '-' then (if inRun then [] else "-") + CollapseHyphens(s[1..], true)
    else [s[0]] + CollapseHyphens(s[1..], false)
  }

  /** `generateSlug(title)`. The final `trim()` strips whitespace only, of
      which none is left by then, so hyphens at either end survive. */
  function GenerateSlug(title: string): string
  {
    Trim(CollapseHyphens(HyphenateSpaces(StripSpecial(ToLower(title)), false), false))
  }

  /** The characters a slug can hold: `a-z`, `0-9`, `_` and `-`. */
  predicate SlugChar(c: char)
  {
    'a' <= c <= 'z' || IsDigit(c) || c == '_' || c == '-'
  }

  predicate NoDoubleHyphen(s: string)
  {
    forall i :: 0 <= i < |s| - 1 ==> !(s[i] == '-' && s[i + 1] == '-')
  }

  /** What `generateSlug` can return: slug characters, no `--`. */
  predicate IsSlugText(s: string)
  {
    (forall i :: 0 <= i < |s| ==> SlugChar(s[i])) && NoDoubleHyphen(s)
  }

  /** After lowercasing and stripping: slug characters or whitespace. */
  predicate LowerKept(c: char)
  {
    SlugChar(c) || IsSpace(c)
  }

  lemma {:induction false} StripSpecialLower(s: string)
    requires forall i :: 0 <= i < |s| ==> !IsUpper(s[i])
    ensures forall i :: 0 <= i < |StripSpecial(s)| ==> LowerKept(StripSpecial(s)[i])
  {
    if s != [] {
      StripSpecialLower(s[1..]);
    }
  }

  lemma {:induction false} HyphenateSlugChars(s: string, inRun: bool)
    requires forall i :: 0 <= i < |s| ==> LowerKept(s[i])
    ensures forall i :: 0 <= i < |HyphenateSpaces(s, inRun)| ==> SlugChar(HyphenateSpaces(s, inRun)[i])
  {
    if s != [] {
      HyphenateSlugChars(s[1..], IsSpace(s[0]));
    }
  }

  lemma {:induction false} CollapseShape(s: string, inRun: bool)
    requires forall i :: 0 <= i < |s| ==> SlugChar(s[i])
    ensures IsSlugText(CollapseHyphens(s, inRun))
    ensures inRun && CollapseHyphens(s, inRun) != [] ==> CollapseHyphens(s, inRun)[0] != '-'
  {
    if s != [] {
      CollapseShape(s[1..], s[0] == '-');
    }
  }

  /** Every slug consists of `a-z`, `0-9`, `_` and `-` only and never
      contains `--`. */
  lemma GenerateSlugShape(title: string)
    ensures IsSlugText(GenerateSlug(title))
  {
    var lower := ToLower(title);
    StripSpecialLower(lower);
    var stripped := StripSpecial(lower);
    HyphenateSlugChars(stripped, false);
    var hyphenated := HyphenateSpaces(stripped, false);
    CollapseShape(hyphenated, false);
    TrimNoSpace(CollapseHyphens(hyphenated, false));
  }

  lemma {:induction false} StripSpecialFixes(s: string)
    requires forall i :: 0 <= i < |s| ==> Kept(s[i])
    ensures StripSpecial(s) == s
  {
    if s != [] {
      StripSpecialFixes(s[1..]);
      assert [s[0]] + s[1..] == s;
    }
  }

  lemma {:induction false} HyphenateFixes(s: string, inRun: bool)
    requires NoSpace(s)
    ensures HyphenateSpaces(s, inRun) == s
  {
    if s != [] {
      HyphenateFixes(s[1..], false);
      assert [s[0]] + s[1..] == s;
    }
  }

  lemma {:induction false} CollapseFixes(s: string, inRun: bool)
    requires NoDoubleHyphen(s)
    requires inRun ==> s == [] || s[0] != '-'
    ensures CollapseHyphens(s, inRun) == s
  {
    if s != [] {
      CollapseFixes(s[1..], s[0] == '-');
      assert [s[0]] + s[1..] == s;
    }
  }

  /** Slug text is a fixed point of `generateSlug`. */
  lemma SlugTextFixed(s: string)
    requires IsSlugText(s)
    ensures GenerateSlug(s) == s
  {
    ToLowerFixes(s);
    StripSpecialFixes(s);
    HyphenateFixes(s, false);
    CollapseFixes(s, false);
    TrimNoSpace(s);
  }

  /** `generateSlug` is idempotent. */
  lemma GenerateSlugIdempotent(title: string)
    ensures GenerateSlug(GenerateSlug(title)) == GenerateSlug(title)
  {
    GenerateSlugShape(title);
    SlugTextFixed(GenerateSlug(title));
  }

  /** A title that starts with whitespace gives a slug that starts with a
      hyphen: the trailing `trim()` does not remove it. */
  lemma LeadingSpaceKeepsHyphen(title: string)
    requires title != [] && IsSpace(title[0])
    ensures GenerateSlug(title) != [] && GenerateSlug(title)[0] == '-'
  {
    var lower := ToLower(title);
    assert IsSpace(lower[0]);
    var stripped := StripSpecial(lower);
    assert stripped == [lower[0]] + StripSpecial(lower[1..]);
    var hyphenated := HyphenateSpaces(stripped, false);
    assert hyphenated[0] == '-';
    var collapsed := CollapseHyphens(hyphenated, false);
    assert collapsed[0] == '-';
    GenerateSlugShape(title);
    StripSpecialLower(lower);
    HyphenateSlugChars(stripped, false);
    CollapseShape(hyphenated, false);
    TrimNoSpace(collapsed);
  }

  /** A run of whitespace at the end becomes a hyphen, unless the run
      continues one already turned into a hyphen before `s`. */
  lemma {:induction false} HyphenateEndsWithHyphen(s: string, inRun: bool)
    requires s != [] && IsSpace(s[|s| - 1])
    ensures var h := HyphenateSpaces(s, inRun);
      (h == [] && inRun) || (h != [] && h[|h| - 1] == '-')
  {
    if |s| > 1 {
      HyphenateEndsWithHyphen(s[1..], IsSpace(s[0]));
    }
  }

  /** A run of hyphens at the end collapses to one hyphen, unless the run
      continues one kept before `s`. */
  lemma {:induction false} CollapseEndsWithHyphen(s: string, inRun: bool)
    requires s != [] && s[|s| - 1] == '-'
    ensures var c := CollapseHyphens(s, inRun);
      (c == [] && inRun) || (c != [] && c[|c| - 1] == '-')
  {
    if |s| > 1 {
      CollapseEndsWithHyphen(s[1..], s[0] == '-');
    }
  }

  /** Stripping keeps a final whitespace character. */
  lemma StripKeepsLastSpace(s: string)
    requires s != [] && IsSpace(s[|s| - 1])
    ensures var r := StripSpecial(s); r != [] && IsSpace(r[|r| - 1])
  {
    var n := |s|;
    assert s == s[..n - 1] + [s[n - 1]];
    StripSpecialAppend(s[..n - 1], [s[n - 1]]);
    StripSpecialChar(s[n - 1]);
  }

  /** Before the final `trim()`, text ending in whitespace ends in a hyphen. */
  lemma UntrimmedEndsWithHyphen(lower: string)
    requires lower != [] && IsSpace(lower[|lower| - 1])
    ensures var c := CollapseHyphens(HyphenateSpaces(StripSpecial(lower), false), false);
      c != [] && c[|c| - 1] == '-'
  {
    StripKeepsLastSpace(lower);
    var stripped := StripSpecial(lower);
    HyphenateEndsWithHyphen(stripped, false);
    CollapseEndsWithHyphen(HyphenateSpaces(stripped, false), false);
  }

  /** A title that ends with whitespace gives a slug that ends with a
      hyphen: the trailing `trim()` does not remove it either. */
  lemma TrailingSpaceKeepsHyphen(title: string)
    requires title != [] && IsSpace(title[|title| - 1])
    ensures var slug := GenerateSlug(title); slug != [] && slug[|slug| - 1] == '-'
  {
    var lower := ToLower(title);
    assert IsSpace(lower[|lower| - 1]);
    UntrimmedEndsWithHyphen(lower);
    var stripped := StripSpecial(lower);
    var hyphenated := HyphenateSpaces(stripped, false);
    StripSpecialLower(lower);
    HyphenateSlugChars(stripped, false);
    CollapseShape(hyphenated, false);
    TrimNoSpace(CollapseHyphens(hyphenated, false));
  }

  /** A title without a word character, whitespace or hyphen (all
      punctuation, or all non-ASCII letters) gives the empty slug. */
  lemma {:induction false} NoKeptCharsEmptySlug(title: string)
    requires forall i :: 0 <= i < |title| ==> !Kept(title[i])
    ensures GenerateSlug(title) == ""
  {
    var lower := ToLower(title);
    assert forall i :: 0 <= i < |lower| ==> !Kept(lower[i]);
    NothingKept(lower);
  }

  lemma {:induction false} NothingKept(s: string)
    requires forall i :: 0 <= i < |s| ==> !Kept(s[i])
    ensures StripSpecial(s) == ""
  {
    if s != [] {
      NothingKept(s[1..]);
    }
  }

  /** The `k`-th slug tried by the uniqueness probe of `createArticle`:
      the base itself, then `base-1`, `base-2`, ... */
  function Probe(base: string, k: nat): (r: string)
    ensures k > 0 ==> |r| > |base| + 1
  {
    if k == 0 then base else base + "-" + NatToString(k)
  }

  /** Different probes of the same base are different strings, so a finite
      set of taken slugs can only block finitely many probes. */
  lemma ProbeInjective(base: string, j: nat, k: nat)
    requires Probe(base, j) == Probe(base, k)
    ensures j == k
  {
    if j > 0 && k > 0 {
      var n := |base| + 1;
      assert NatToString(j) == Probe(base, j)[n..];
      assert NatToString(k) == Probe(base, k)[n..];
      NatToStringInjective(j, k);
    }
  }

  /** Probes of a slug keep to slug characters, so the schema's lowercase
      setter leaves them as they are. */
  lemma ProbeLower(base: string, k: nat)
    requires forall i :: 0 <= i < |base| ==> SlugChar(base[i])
    ensures forall i :: 0 <= i < |Probe(base, k)| ==> SlugChar(Probe(base, k)[i])
    ensures ToLower(Probe(base, k)) == Probe(base, k)
  {
    var p := Probe(base, k);
    assert forall i :: 0 <= i < |p| ==> SlugChar(p[i]) by {
      if k > 0 {
        var digits := NatToString(k);
        forall i | 0 <= i < |p| ensures SlugChar(p[i]) {
          if i >= |base| + 1 {
            assert p[i] == digits[i - |base| - 1];
          }
        }
      }
    }
    ToLowerFixes(p);
  }

  // ---------------------------------------------------------------------
  // Reading time: content.split(/\s+/).length words at 200 a minute.
  // ---------------------------------------------------------------------

  const WordsPerMinute: nat := 200

  /** `s.split(/\s+/)`: the pieces between maximal whitespace runs. A
      leading or trailing run yields an empty piece, and the empty string
      yields one empty piece. */
  function SplitOnSpaces(s: string): (r: seq<string>)
    ensures |r| >= 1
    ensures forall i :: 0 <= i < |r| ==> NoSpace(r[i])
    decreases |s|
  {
    if s == [] then [[]]
    else if IsSpace(s[0]) then [[]] + SplitOnSpaces(s[LeadingSpaces(s)..])
    else
      var rest := SplitOnSpaces(s[1..]);
      [[s[0]] + rest[0]] + rest[1..]
  }

  /** The number of maximal whitespace runs of `s`, counted as the number of
      whitespace characters not preceded by whitespace. */
  function SpaceRuns(s: string, afterSpace: bool): nat
  {
    if s == [] then 0
    else (if IsSpace(s[0]) && !afterSpace then 1 else 0) + SpaceRuns(s[1..], IsSpace(s[0]))
  }

  /** `calculateReadingTime(content)`: `Math.ceil(wordCount / 200)`. */
  function ReadingTime(content: string): (minutes: nat)
    ensures minutes >= 1
    ensures WordsPerMinute * (minutes - 1) < |SplitOnSpaces(content)| <= WordsPerMinute * minutes
  {
    (|SplitOnSpaces(content)| + WordsPerMinute - 1) / WordsPerMinute
  }

  /** The word count is one more than the number of whitespace runs, so it
      is never 0, even for empty or whitespace-only content. */
  lemma {:induction false} WordCountIsRunsPlusOne(s: string)
    ensures |SplitOnSpaces(s)| == SpaceRuns(s, false) + 1
    decreases |s|
  {
    if s != [] {
      if IsSpace(s[0]) {
        var n := LeadingSpaces(s);
        WordCountIsRunsPlusOne(s[n..]);
        SkipRun(s[1..], n - 1);
        assert s[1..][n - 1..] == s[n..];
        AfterRunFlag(s[n..]);
      } else {
        WordCountIsRunsPlusOne(s[1..]);
      }
    }
  }

  /** Skipping whitespace just after whitespace adds no run. */
  lemma {:induction false} SkipRun(s: string, n: nat)
    requires n <= |s|
    requires forall i :: 0 <= i < n ==> IsSpace(s[i])
    ensures SpaceRuns(s, true) == SpaceRuns(s[n..], true)
  {
    if n > 0 {
      SkipRun(s[1..], n - 1);
      assert s[1..][n - 1..] == s[n..];
    }
  }

  /** Before a non-space (or at the end), the flag does not matter. */
  lemma AfterRunFlag(s: string)
    requires s == [] || !IsSpace(s[0])
    ensures SpaceRuns(s, true) == SpaceRuns(s, false)
  {
  }

  /** Reading time in terms of whitespace runs: `ceil((runs + 1) / 200)`. */
  lemma ReadingTimeFromRuns(content: string)
    ensures ReadingTime(content) == (SpaceRuns(content, false) + WordsPerMinute) / WordsPerMinute
    ensures ReadingTime(content) >= 1
  {
    WordCountIsRunsPlusOne(content);
  }

  /** A title with surrounding spaces keeps a hyphen at each end. */
  lemma SpacedTitleKeepsHyphens()
    ensures GenerateSlug(" Hi ") == "-hi-"
  {
    SpacedTitleText();
    SpacedTitleHyphens();
    SpacedTitleTrimmed();
  }

  /** The last step: `trim()` finds no whitespace to remove. */
  lemma SpacedTitleTrimmed()
    ensures Trim("-hi-") == "-hi-"
  {
    TrimNoSpace("-hi-");
  }

  /** The first two steps on `" Hi "`: lowered, nothing to strip. */
  lemma SpacedTitleText()
    ensures StripSpecial(ToLower(" Hi ")) == " hi "
  {
    assert ToLower(" Hi ") == " hi ";
  }

  /** The next two: each space becomes a hyphen, none to collapse. */
  lemma SpacedTitleHyphens()
    ensures CollapseHyphens(HyphenateSpaces(" hi ", false), false) == "-hi-"
  {
    assert HyphenateSpaces(" hi ", false) == "-hi-";
  }
}
