/** `SaveTextFlorence.process_text`: the three fixed rewrites applied to a
    caption — the style phrase, the gender/age phrase, the trigger word. */
module Caption {
  import opened Strings

  const Is: string := "The image is"
  const Shows: string := "The image shows"

  // ---------------------------------------------------------------------
  // Style step: re.sub(r"^(The image is|The image shows)\s+", style + " ", t)
  // ---------------------------------------------------------------------

  /** Length of the match of `^(The image is|The image shows)\s+` in `t`, or 0
      when there is none. The first alternative is tried first; when it is not
      followed by whitespace the regex backtracks into the second. */
  function StyleMatchLength(t: string): nat
  {
    if HasAt(t, 0, Is) && WhitespaceRun(t, |Is|) > 0 then |Is| + WhitespaceRun(t, |Is|)
    else if HasAt(t, 0, Shows) && WhitespaceRun(t, |Shows|) > 0 then |Shows| + WhitespaceRun(t, |Shows|)
    else 0
  }

  /** `if image_style: text = re.sub(...)`: the matched phrase and the whole
      whitespace run after it become `style + " "`. */
  function StyleStep(t: string, style: string): string
  {
    if style == "" then t
    else
      var n := StyleMatchLength(t);
      if n > 0 then style + " " + t[n..] else t
  }

  /** The caption opens with one of the two phrases and a whitespace character. */
  predicate OpensWithPhrase(t: string) {
    (HasAt(t, 0, Is) && |Is| < |t| && IsWhitespace(t[|Is|]))
    || (HasAt(t, 0, Shows) && |Shows| < |t| && IsWhitespace(t[|Shows|]))
  }

  /** A caption made of a phrase, a non-empty whitespace run and the rest loses
      the phrase and the whole run, which become the style and one space. */
  lemma StyleReplacesPhrase(phrase: string, ws: string, rest: string, style: string)
    requires phrase == Is || phrase == Shows
    requires ws != [] && AllWhitespace(ws)
    requires rest == [] || !IsWhitespace(rest[0])
    requires style != ""
    ensures StyleStep(phrase + ws + rest, style) == style + " " + rest
  {
    var t := phrase + ws + rest;
    PhraseThenWhitespace(phrase, ws, rest);
    WhitespaceRunExact(t, |phrase|, |ws|);
    StyleMatchOf(t, phrase);
  }

  /** The pieces of `phrase + ws + rest`, located. */
  lemma PhraseThenWhitespace(phrase: string, ws: string, rest: string)
    requires AllWhitespace(ws) && (rest == [] || !IsWhitespace(rest[0]))
    ensures var t := phrase + ws + rest; var n := |phrase| + |ws|;
      HasAt(t, 0, phrase) && WhitespaceIn(t, |phrase|, n)
      && (n == |t| || !IsWhitespace(t[n])) && t[n..] == rest
  {
    var t := phrase + ws + rest;
    forall k | |phrase| <= k < |phrase| + |ws| ensures IsWhitespace(t[k]) {
      assert t[k] == ws[k - |phrase|];
    }
    assert t[|phrase| + |ws|..] == rest;
  }

  /** A phrase followed by whitespace at the start of `t` is matched with the
      whole run; "The image shows" is reached by backtracking. */
  lemma StyleMatchOf(t: string, phrase: string)
    requires phrase == Is || phrase == Shows
    requires HasAt(t, 0, phrase) && WhitespaceRun(t, |phrase|) > 0
    ensures StyleMatchLength(t) == |phrase| + WhitespaceRun(t, |phrase|)
  {
    HasAtChar(t, 0, Is, 10);
    HasAtChar(t, 0, Shows, 10);
  }

  /** Every other caption, and every caption when the style is empty, is left
      as it is: the phrase must start the text and be followed by whitespace. */
  lemma StyleKeepsOtherText(t: string, style: string)
    requires style == "" || !OpensWithPhrase(t)
    ensures StyleStep(t, style) == t
  {
    if style != "" {
      if HasAt(t, 0, Is) { assert WhitespaceRun(t, |Is|) == 0; }
      if HasAt(t, 0, Shows) { assert WhitespaceRun(t, |Shows|) == 0; }
    }
  }

  // ---------------------------------------------------------------------
  // Gender/age step: re.sub(r"\b<article> (young |middle-aged |blonde )?(woman|man)\b", rep, t)
  // for <article> = "a", then "an"
  // ---------------------------------------------------------------------

  predicate IsDescriptor(d: string) {
    d == "young " || d == "middle-aged " || d == "blonde "
  }

  predicate IsNoun(n: string) {
    n == "woman" || n == "man"
  }

  /** Length of the optional group `(young |middle-aged |blonde )` at `j`, 0 when
      none of the three is there. */
  function DescriptorLength(s: string, j: nat): nat
  {
    if HasAt(s, j, "young ") then 6
    else if HasAt(s, j, "middle-aged ") then 12
    else if HasAt(s, j, "blonde ") then 7
    else 0
  }

  /** Length of the group `(woman|man)` at `j`, 0 when neither is there. */
  function NounLength(s: string, j: nat): nat
  {
    if HasAt(s, j, "woman") then 5
    else if HasAt(s, j, "man") then 3
    else 0
  }

  /** Length of the match of the gender/age pattern for `article` at index `i`,
      or 0 when it does not match there. The three descriptors and the two
      nouns begin differently, and no descriptor begins like a noun, so the
      regex has at most one way to match at `i` (see OccurrenceIsMatch). */
  function MatchLength(s: string, i: nat, article: string): (m: nat)
    requires i <= |s|
    ensures i + m <= |s|
  {
    if !(IsWordBoundary(s, i) && HasAt(s, i, article + " ")) then 0
    else
      var j := i + |article| + 1;
      var d := DescriptorLength(s, j);
      var n := NounLength(s, j + d);
      if n > 0 && IsWordBoundary(s, j + d + n) then j + d + n - i else 0
  }

  /** What the regex means: at `i` stand the article, a space, the descriptor
      `d` (possibly none) and the noun, with a word boundary on both sides. */
  predicate OccursAt(s: string, i: nat, article: string, d: string, noun: string) {
    (d == "" || IsDescriptor(d)) && IsNoun(noun)
    && HasAt(s, i, article + " " + d + noun)
    && IsWordBoundary(s, i) && IsWordBoundary(s, i + |article| + 1 + |d| + |noun|)
  }

  /** OccursAt read piece by piece, the way MatchLength scans. */
  predicate OccursInPieces(s: string, i: nat, article: string, d: string, noun: string) {
    var j := i + |article| + 1;
    (d == "" || IsDescriptor(d)) && IsNoun(noun)
    && HasAt(s, i, article + " ") && HasAt(s, j, d) && HasAt(s, j + |d|, noun)
    && IsWordBoundary(s, i) && IsWordBoundary(s, j + |d| + |noun|)
  }

  lemma OccursAtPieces(s: string, i: nat, article: string, d: string, noun: string)
    ensures OccursAt(s, i, article, d, noun) <==> OccursInPieces(s, i, article, d, noun)
  {
    HasAtConcat3(s, i, article + " ", d, noun);
    assert |article + " "| == |article| + 1;
  }

  /** Every match found by MatchLength is an occurrence of the pattern:
      `d` and `noun` are the descriptor and the noun it matched. */
  lemma MatchIsOccurrence(s: string, i: nat, article: string) returns (d: string, noun: string)
    requires i <= |s| && MatchLength(s, i, article) > 0
    ensures OccursAt(s, i, article, d, noun)
    ensures MatchLength(s, i, article) == |article| + 1 + |d| + |noun|
  {
    var j := i + |article| + 1;
    d := DescriptorFound(s, j);
    noun := NounFound(s, j + |d|);
    assert OccursInPieces(s, i, article, d, noun);
    OccursAtPieces(s, i, article, d, noun);
  }

  /** The descriptor that DescriptorLength found, "" for none. */
  lemma DescriptorFound(s: string, j: nat) returns (d: string)
    requires j <= |s|
    ensures |d| == DescriptorLength(s, j)
    ensures (d == "" || IsDescriptor(d)) && HasAt(s, j, d)
  {
    if HasAt(s, j, "young ") { d := "young "; }
    else if HasAt(s, j, "middle-aged ") { d := "middle-aged "; }
    else if HasAt(s, j, "blonde ") { d := "blonde "; }
    else { d := ""; }
  }

  /** The noun that NounLength found, when it found one. */
  lemma NounFound(s: string, j: nat) returns (noun: string)
    requires NounLength(s, j) > 0
    ensures |noun| == NounLength(s, j) && IsNoun(noun) && HasAt(s, j, noun)
  {
    noun := if HasAt(s, j, "woman") then "woman" else "man";
  }

  /** Every occurrence of the pattern is matched, and with its full length:
      the regex cannot stop short of, or go past, the occurrence. */
  lemma OccurrenceIsMatch(s: string, i: nat, article: string, d: string, noun: string)
    requires OccursAt(s, i, article, d, noun)
    ensures MatchLength(s, i, article) == |article| + 1 + |d| + |noun|
  {
    OccursAtPieces(s, i, article, d, noun);
    var j := i + |article| + 1;
    DescriptorAt(s, j, d, noun);
    NounAt(s, j + |d|, noun);
  }

  /** The optional group takes exactly the descriptor of an occurrence, as
      neither noun begins like a descriptor. */
  lemma DescriptorAt(s: string, j: nat, d: string, noun: string)
    requires d == "" || IsDescriptor(d)
    requires IsNoun(noun) && HasAt(s, j, d) && HasAt(s, j + |d|, noun)
    ensures DescriptorLength(s, j) == |d|
  {
    HasAtChar(s, j + |d|, noun, 0);
    if noun == "man" { HasAtChar(s, j + |d|, noun, 1); }
    if d != "" { HasAtChar(s, j, d, 0); }
    HasAtChar(s, j, "young ", 0);
    HasAtChar(s, j, "middle-aged ", 0);
    HasAtChar(s, j, "middle-aged ", 1);
    HasAtChar(s, j, "blonde ", 0);
  }

  /** The noun group takes exactly the noun of an occurrence. */
  lemma NounAt(s: string, j: nat, noun: string)
    requires IsNoun(noun) && HasAt(s, j, noun)
    ensures NounLength(s, j) == |noun|
  {
    HasAtChar(s, j, noun, 0);
    HasAtChar(s, j, "woman", 0);
  }

  /** `re.sub` from index `i` of the original string: at each position either
      the pattern matches, the match is replaced by `rep` verbatim and the scan
      resumes after it, or the character is copied and the scan moves on. */
  function ReplaceFrom(s: string, article: string, rep: string, i: nat): string
    requires i <= |s|
    decreases |s| - i
  {
    if i == |s| then ""
    else
      var m := MatchLength(s, i, article);
      if m > 0 then rep + ReplaceFrom(s, article, rep, i + m)
      else [s[i]] + ReplaceFrom(s, article, rep, i + 1)
  }

  function ReplaceAll(s: string, article: string, rep: string): string
  {
    ReplaceFrom(s, article, rep, 0)
  }

  /** No occurrence of the pattern starts at or after `k`, before `i`. */
  ghost predicate NoOccurrenceIn(s: string, article: string, k: nat, i: nat) {
    forall j, d, noun :: k <= j < i ==> !OccursAt(s, j, article, d, noun)
  }

  /** Where the article and its space do not stand, nothing occurs. */
  lemma NoOccurrenceWithoutArticle(s: string, article: string, k: nat, i: nat)
    requires forall j :: k <= j < i ==> !HasAt(s, j, article + " ")
    ensures NoOccurrenceIn(s, article, k, i)
  {
    forall j, d, noun | k <= j < i ensures !OccursAt(s, j, article, d, noun) {
      OccursAtPieces(s, j, article, d, noun);
    }
  }

  /** Positions where the pattern does not match are copied one by one. */
  lemma {:induction false} ReplaceFromCopies(s: string, article: string, rep: string, k: nat, i: nat)
    requires k <= i <= |s|
    requires forall j :: k <= j < i ==> MatchLength(s, j, article) == 0
    ensures ReplaceFrom(s, article, rep, k) == s[k..i] + ReplaceFrom(s, article, rep, i)
    decreases i - k
  {
    if k < i {
      ReplaceFromCopies(s, article, rep, k + 1, i);
      CopyStep(s, article, rep, k);
      ConsSlice(s, k, i, ReplaceFrom(s, article, rep, i));
    }
  }

  lemma CopyStep(s: string, article: string, rep: string, k: nat)
    requires k < |s| && MatchLength(s, k, article) == 0
    ensures ReplaceFrom(s, article, rep, k) == [s[k]] + ReplaceFrom(s, article, rep, k + 1)
  {
  }

  /** Where no occurrence starts, MatchLength finds no match. */
  lemma NoMatchWithoutOccurrence(s: string, article: string, k: nat, i: nat)
    requires i <= |s|
    requires NoOccurrenceIn(s, article, k, i)
    ensures forall j :: k <= j < i ==> MatchLength(s, j, article) == 0
  {
    forall j | k <= j < i
      ensures MatchLength(s, j, article) == 0
    {
      if MatchLength(s, j, article) > 0 {
        var d, noun := MatchIsOccurrence(s, j, article);
      }
    }
  }

  /** Without an occurrence the scan copies the text unchanged. */
  lemma ReplaceFromNoOccurrence(s: string, article: string, rep: string, k: nat)
    requires k <= |s|
    requires NoOccurrenceIn(s, article, k, |s|)
    ensures ReplaceFrom(s, article, rep, k) == s[k..]
  {
    NoMatchWithoutOccurrence(s, article, k, |s|);
    ReplaceFromCopies(s, article, rep, k, |s|);
  }

  /** The leftmost occurrence at or after `k` is replaced verbatim by `rep`
      (its descriptor is discarded), the text before it is copied, and the
      scan resumes right after it, so matches never overlap. */
  lemma ReplaceFromLeftmost(s: string, article: string, rep: string, k: nat, i: nat, d: string, noun: string)
    requires k <= i
    requires OccursAt(s, i, article, d, noun)
    requires NoOccurrenceIn(s, article, k, i)
    ensures i + |article| + 1 + |d| + |noun| <= |s|
    ensures ReplaceFrom(s, article, rep, k)
         == s[k..i] + rep + ReplaceFrom(s, article, rep, i + |article| + 1 + |d| + |noun|)
  {
    ReplaceAtOccurrence(s, article, rep, i, d, noun);
    NoMatchWithoutOccurrence(s, article, k, i);
    ReplaceFromCopies(s, article, rep, k, i);
  }

  /** An occurrence at the scan position is replaced as a whole. */
  lemma ReplaceAtOccurrence(s: string, article: string, rep: string, i: nat, d: string, noun: string)
    requires OccursAt(s, i, article, d, noun)
    ensures i + |article| + 1 + |d| + |noun| <= |s|
    ensures ReplaceFrom(s, article, rep, i)
         == rep + ReplaceFrom(s, article, rep, i + |article| + 1 + |d| + |noun|)
  {
    assert |article + " " + d + noun| == |article| + 1 + |d| + |noun|;
    OccurrenceIsMatch(s, i, article, d, noun);
  }

  /** `if gender_age_replacement:` both patterns in turn, the "an" pattern on
      the output of the "a" pattern. */
  function GenderAgeStep(t: string, rep: string): string
  {
    if rep == "" then t
    else ReplaceAll(ReplaceAll(t, "a", rep), "an", rep)
  }

  /** A caption with no occurrence of either pattern, or an empty replacement,
      leaves the step unchanged. */
  lemma GenderAgeKeepsOtherText(t: string, rep: string)
    requires rep == "" || (NoOccurrenceIn(t, "a", 0, |t|) && NoOccurrenceIn(t, "an", 0, |t|))
    ensures GenderAgeStep(t, rep) == t
  {
    if rep != "" {
      ReplaceFromNoOccurrence(t, "a", rep, 0);
      ReplaceFromNoOccurrence(t, "an", rep, 0);
    }
  }

  // ---------------------------------------------------------------------
  // Trigger step and the whole of process_text
  // ---------------------------------------------------------------------

  /** `if lora_trigger: text = f"{lora_trigger.strip()} {text}"`: the test is
      on the trigger as given, the prefix is the stripped trigger. */
  function TriggerStep(t: string, trigger: string): string
  {
    if trigger == "" then t else Strip(trigger) + " " + t
  }

  /** Replacement strings are used literally only when they hold no backslash
      (otherwise `re.sub` reads escapes and group references in them). */
  predicate IsLiteral(rep: string) {
    forall k :: 0 <= k < |rep| ==> rep[k] != '\\'
  }

  /** `process_text`: style, then gender/age, then the trigger prefix. */
  function ProcessText(text: string, style: string, genderAge: string, trigger: string): string
    requires IsLiteral(style) && IsLiteral(genderAge)
  {
    TriggerStep(GenderAgeStep(StyleStep(text, style), genderAge), trigger)
  }

  /** With every option empty the caption comes back unchanged. */
  lemma ProcessTextIdentity(text: string)
    ensures ProcessText(text, "", "", "") == text
  {
  }

  /** The trigger is added last, so it is never rewritten: the result is the
      stripped trigger, a space, and what the caption becomes without it. */
  lemma TriggerNotRewritten(text: string, style: string, genderAge: string, trigger: string)
    requires IsLiteral(style) && IsLiteral(genderAge) && trigger != ""
    ensures ProcessText(text, style, genderAge, trigger)
         == Strip(trigger) + " " + ProcessText(text, style, genderAge, "")
  {
  }

  /** A trigger of whitespace only is non-empty, so it still adds one space. */
  lemma BlankTriggerAddsSpace(t: string, trigger: string)
    requires trigger != [] && AllWhitespace(trigger)
    ensures TriggerStep(t, trigger) == " " + t
  {
    assert trigger == trigger + [] + [];
    StripExact(trigger, [], []);
  }
}
