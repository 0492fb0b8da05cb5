/** Captions that the rewrites of `process_text` leave alone, derived from the
    general lemmas of the Caption module. */
module CaptionExamples {
  import opened Strings
  import opened Caption

  /** "The image is" must be followed by whitespace: "isolated" is not it. */
  lemma StyleNeedsWhitespace()
    ensures StyleStep("The image isolated on white", "A photo of") == "The image isolated on white"
  {
    var t := "The image isolated on white";
    HasAtChar(t, 0, Shows, 10);
    StyleKeepsOtherText(t, "A photo of");
  }

  /** A word between the article and the noun that is not one of the three
      descriptors blocks the pattern: "an old man" is kept. */
  lemma OldManKept()
    ensures GenderAgeStep("an old man", "person") == "an old man"
  {
    OldManHasNoA();
    OldManHasNoAn();
    GenderAgeKeepsOtherText("an old man", "person");
  }

  /** "a" is never followed by a space in "an old man". */
  lemma OldManHasNoA()
    ensures NoOccurrenceIn("an old man", "a", 0, 10)
  {
    var s := "an old man";
    assert "a" + " " == "a ";
    forall j | 0 <= j < 10 ensures !HasAt(s, j, "a ") {
      HasAtChar(s, j, "a ", 0);
      HasAtChar(s, j, "a ", 1);
    }
    NoOccurrenceWithoutArticle(s, "a", 0, 10);
  }

  /** "an " stands only at the start, and "old" is neither a descriptor nor a
      noun. */
  lemma OldManHasNoAn()
    ensures NoOccurrenceIn("an old man", "an", 0, 10)
  {
    var s := "an old man";
    assert "an" + " " == "an ";
    forall j | 1 <= j < 10 ensures !HasAt(s, j, "an ") {
      HasAtChar(s, j, "an ", 0);
      HasAtChar(s, j, "an ", 2);
    }
    NoOccurrenceWithoutArticle(s, "an", 1, 10);
    assert MatchLength(s, 0, "an") == 0 by {
      HasAtChar(s, 3, "young ", 0);
      HasAtChar(s, 3, "middle-aged ", 0);
      HasAtChar(s, 3, "blonde ", 0);
      HasAtChar(s, 3, "woman", 0);
      HasAtChar(s, 3, "man", 0);
    }
    forall d, noun ensures !OccursAt(s, 0, "an", d, noun) {
      if OccursAt(s, 0, "an", d, noun) { OccurrenceIsMatch(s, 0, "an", d, noun); }
    }
  }

  /** The leftmost occurrence, descriptor and all, becomes the replacement;
      the rest of the caption is copied. */
  // The replacement is a parameter equal to "person" rather than the literal
  // itself, so that the verifier does not evaluate the scan on literals.
  lemma YoungWomanWalking(rep: string)
    requires rep == "person"
    ensures GenderAgeStep("a young woman walking", rep) == rep + " walking"
  {
    var s := "a young woman walking";
    YoungWomanOccurs();
    ReplaceAtOccurrence(s, "a", rep, 0, "young ", "woman");
    WalkingHasNoA();
    ReplaceFromNoOccurrence(s, "a", rep, 13);
    assert s[13..] == " walking";
    PersonWalkingHasNoAn(rep);
    ReplaceFromNoOccurrence(rep + " walking", "an", rep, 0);
  }

  lemma YoungWomanOccurs()
    ensures OccursAt("a young woman walking", 0, "a", "young ", "woman")
  {
    var s := "a young woman walking";
    assert "a" + " " == "a ";
    assert OccursInPieces(s, 0, "a", "young ", "woman");
    OccursAtPieces(s, 0, "a", "young ", "woman");
  }

  /** No "a " in the tail " walking". */
  lemma WalkingHasNoA()
    ensures NoOccurrenceIn("a young woman walking", "a", 13, 21)
  {
    var s := "a young woman walking";
    assert "a" + " " == "a ";
    forall j | 13 <= j < 21 ensures !HasAt(s, j, "a ") {
      HasAtChar(s, j, "a ", 1);
    }
    NoOccurrenceWithoutArticle(s, "a", 13, 21);
  }

  /** No "an " in "person walking" (the replacement is a parameter for the
      reason given above). */
  lemma PersonWalkingHasNoAn(rep: string)
    requires rep == "person"
    ensures NoOccurrenceIn(rep + " walking", "an", 0, |rep + " walking"|)
  {
    var t := rep + " walking";
    assert "an" + " " == "an ";
    forall j | 0 <= j < |t| ensures !HasAt(t, j, "an ") {
      HasAtChar(t, j, "an ", 0);
      HasAtChar(t, j, "an ", 1);
    }
    NoOccurrenceWithoutArticle(t, "an", 0, |t|);
  }
}
