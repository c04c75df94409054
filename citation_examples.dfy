/** Entries `parseCitations` stores for a few small READMEs, worked out
    position by position through the scan of each regex. */
module CitationExamples {
  import opened Wrappers
  import opened Patterns
  import opened Citations

  // ---------------------------------------------------------------------------
  // "KEP 5 KEP-7": pattern 1 finds 7 (the `KEP` at 0 is followed by a space),
  // pattern 3 finds 5, so 7 comes first.

  const Mixed: string := "KEP 5 KEP-7"

  lemma DashMixedHead()
    ensures CapturesFrom(KepDash, Mixed, 0) == CapturesFrom(KepDash, Mixed, 3)
  {
    assert MatchAt(KepDash, Mixed, 0) == None;
    CapturesFromNoMatch(KepDash, Mixed, 0);
    assert MatchAt(KepDash, Mixed, 1) == None;
    CapturesFromNoMatch(KepDash, Mixed, 1);
    assert MatchAt(KepDash, Mixed, 2) == None;
    CapturesFromNoMatch(KepDash, Mixed, 2);
  }

  lemma DashMixedMiddle()
    ensures CapturesFrom(KepDash, Mixed, 3) == CapturesFrom(KepDash, Mixed, 6)
  {
    assert MatchAt(KepDash, Mixed, 3) == None;
    CapturesFromNoMatch(KepDash, Mixed, 3);
    assert MatchAt(KepDash, Mixed, 4) == None;
    CapturesFromNoMatch(KepDash, Mixed, 4);
    assert MatchAt(KepDash, Mixed, 5) == None;
    CapturesFromNoMatch(KepDash, Mixed, 5);
  }

  lemma DashMixedTail()
    ensures CapturesFrom(KepDash, Mixed, 6) == ["7"]
  {
    assert Mixed[10..11] == "7";
    assert MatchAt(KepDash, Mixed, 6) == Some(Match("7", 11));
    CapturesFromMatch(KepDash, Mixed, 6, Match("7", 11));
  }

  lemma SpaceMixedHead()
    ensures CapturesFrom(KepSpace, Mixed, 0) == ["5"] + CapturesFrom(KepSpace, Mixed, 5)
  {
    assert Mixed[4..5] == "5";
    assert MatchAt(KepSpace, Mixed, 0) == Some(Match("5", 5));
    CapturesFromMatch(KepSpace, Mixed, 0, Match("5", 5));
  }

  lemma SpaceMixedMiddle()
    ensures CapturesFrom(KepSpace, Mixed, 5) == CapturesFrom(KepSpace, Mixed, 8)
  {
    assert MatchAt(KepSpace, Mixed, 5) == None;
    CapturesFromNoMatch(KepSpace, Mixed, 5);
    assert MatchAt(KepSpace, Mixed, 6) == None;
    CapturesFromNoMatch(KepSpace, Mixed, 6);
    assert MatchAt(KepSpace, Mixed, 7) == None;
    CapturesFromNoMatch(KepSpace, Mixed, 7);
  }

  lemma SpaceMixedTail()
    ensures CapturesFrom(KepSpace, Mixed, 8) == []
  {
    assert MatchAt(KepSpace, Mixed, 8) == None;
    CapturesFromNoMatch(KepSpace, Mixed, 8);
    assert MatchAt(KepSpace, Mixed, 9) == None;
    CapturesFromNoMatch(KepSpace, Mixed, 9);
    assert MatchAt(KepSpace, Mixed, 10) == None;
    CapturesFromNoMatch(KepSpace, Mixed, 10);
  }

  /** Pattern 1 skips the `KEP` followed by a space and finds 7. */
  lemma DashCapturesOfMixed()
    ensures Captures(KepDash, Mixed) == ["7"]
  {
    DashMixedHead();
    DashMixedMiddle();
    DashMixedTail();
  }

  /** Pattern 3 finds 5 and rejects `KEP-7`. */
  lemma SpaceCapturesOfMixed()
    ensures Captures(KepSpace, Mixed) == ["5"]
  {
    SpaceMixedHead();
    SpaceMixedMiddle();
    SpaceMixedTail();
  }

  /** Patterns 2 and 4 find nothing: there is no `#`, and the text is
      shorter than the issue address. */
  lemma OthersCaptureNothingInMixed()
    ensures Captures(KepHash, Mixed) == [] && Captures(IssueUrl, Mixed) == []
  {
    assert Literal(KepHash)[4] == '#';
    assert '#' !in Mixed;
    MissingLiteralCharNoCaptures(KepHash, Mixed, 4);
    ShortTextNoCaptures(IssueUrl, Mixed);
  }

  lemma MixedAllCaptures()
    ensures AllCaptures(Mixed) == ["7", "5"]
  {
    DashCapturesOfMixed();
    SpaceCapturesOfMixed();
    OthersCaptureNothingInMixed();
    PairOfSingletons("7", "5");
  }

  lemma PairOfSingletons(a: string, b: string)
    ensures [a] + [] + [b] + [] == [a, b]
  {
  }

  /** Pattern 1's captures come first, then the new ones of pattern 3. */
  lemma MixedEntry()
    ensures Entry(Mixed, "999") == ["7", "5"]
  {
    EntryIsUnionOfCaptures(Mixed, "999");
    MixedAllCaptures();
    DistinctPair("7", "5", "999");
  }

  /** Two distinct captures, neither the parent's id, stay in order. */
  lemma DistinctPair(a: string, b: string, parent: string)
    requires a != b && a != parent && b != parent
    ensures SetDelete(Dedup([a, b]), parent) == [a, b]
  {
    assert [a, b] == [a] + [b];
    AddAllCons([], a, [b]);
    assert SetAdd([], a) == [a];
    assert [b] == [b] + [];
    AddAllCons([a], b, []);
    assert SetAdd([a], b) == [a, b];
    SetDeleteAbsent([a, b], parent);
  }

  // ---------------------------------------------------------------------------
  // A README that only cites its own KEP.

  const SelfOnly: string := "KEP-999"

  lemma SelfOnlyDash()
    ensures Captures(KepDash, SelfOnly) == ["999"]
  {
    var s := SelfOnly;
    assert s[4..7] == "999";
    assert MatchAt(KepDash, s, 0) == Some(Match("999", 7));
    CapturesFromMatch(KepDash, s, 0, Match("999", 7));
  }

  lemma SelfOnlyAllCaptures()
    ensures AllCaptures(SelfOnly) == ["999"]
  {
    SelfOnlyDash();
    MissingLiteralCharNoCaptures(KepHash, SelfOnly, 4);
    MissingLiteralCharNoCaptures(KepSpace, SelfOnly, 3);
    ShortTextNoCaptures(IssueUrl, SelfOnly);
    OnlyFirstOfFour("999");
  }

  /** The parent's own id is deleted: the entry is empty. */
  lemma SelfCitationDropped()
    ensures Entry(SelfOnly, "999") == []
  {
    EntryIsUnionOfCaptures(SelfOnly, "999");
    SelfOnlyAllCaptures();
    SingleCapture("999", "999");
  }

  lemma OnlyFirstOfFour(a: string)
    ensures [a] + [] + [] + [] == [a]
  {
  }

  /** One capture survives exactly when it is not the parent's id. */
  lemma SingleCapture(a: string, parent: string)
    ensures SetDelete(Dedup([a]), parent) == if a == parent then [] else [a]
  {
    assert [a] == [a] + [];
    AddAllCons([], a, []);
    assert SetAdd([], a) == [a];
    assert [a][1..] == [];
  }

  // ---------------------------------------------------------------------------
  // A lower-case mention with a leading zero.

  const LowerCase: string := "kep-0999"

  lemma LowerCaseDash()
    ensures Captures(KepDash, LowerCase) == ["0999"]
  {
    var s := LowerCase;
    assert s[4..8] == "0999";
    assert MatchAt(KepDash, s, 0) == Some(Match("0999", 8));
    CapturesFromMatch(KepDash, s, 0, Match("0999", 8));
  }

  lemma LowerCaseAllCaptures()
    ensures AllCaptures(LowerCase) == ["0999"]
  {
    LowerCaseDash();
    MissingLiteralCharNoCaptures(KepHash, LowerCase, 4);
    MissingLiteralCharNoCaptures(KepSpace, LowerCase, 3);
    ShortTextNoCaptures(IssueUrl, LowerCase);
    OnlyFirstOfFour("0999");
  }

  /** The `i` flag matches `kep`, and the capture is kept as written: a
      leading zero makes it differ from the parent's id, so it stays. */
  lemma LowerCaseWithLeadingZero()
    ensures Entry(LowerCase, "999") == ["0999"]
  {
    EntryIsUnionOfCaptures(LowerCase, "999");
    LowerCaseAllCaptures();
    SingleCapture("0999", "999");
  }

  // ---------------------------------------------------------------------------
  // "KEP 12a": pattern 3's lookahead rejects a number glued to a letter, and
  // pattern 1 needs a digit or `-` right after `KEP`.

  const Glued: string := "KEP 12a"

  lemma GluedDash()
    ensures Captures(KepDash, Glued) == []
  {
    var s := Glued;
    assert MatchAt(KepDash, s, 0) == None;
    assert MatchAt(KepDash, s, 1) == None;
    assert MatchAt(KepDash, s, 2) == None;
    assert MatchAt(KepDash, s, 3) == None;
    assert MatchAt(KepDash, s, 4) == None;
    assert MatchAt(KepDash, s, 5) == None;
    assert MatchAt(KepDash, s, 6) == None;
    CapturesFromNone(KepDash, s, 0);
  }

  lemma GluedSpace()
    ensures Captures(KepSpace, Glued) == []
  {
    var s := Glued;
    assert DigitRunEnd(s, 4) == 6;
    assert MatchAt(KepSpace, s, 0) == None;
    assert MatchAt(KepSpace, s, 1) == None;
    assert MatchAt(KepSpace, s, 2) == None;
    assert MatchAt(KepSpace, s, 3) == None;
    assert MatchAt(KepSpace, s, 4) == None;
    assert MatchAt(KepSpace, s, 5) == None;
    assert MatchAt(KepSpace, s, 6) == None;
    CapturesFromNone(KepSpace, s, 0);
  }

  lemma OthersCaptureNothingInGlued()
    ensures Captures(KepHash, Glued) == [] && Captures(IssueUrl, Glued) == []
  {
    assert Literal(KepHash)[4] == '#';
    assert '#' !in Glued;
    MissingLiteralCharNoCaptures(KepHash, Glued, 4);
    ShortTextNoCaptures(IssueUrl, Glued);
  }

  lemma GluedAllCaptures()
    ensures AllCaptures(Glued) == []
  {
    GluedDash();
    GluedSpace();
    OthersCaptureNothingInGlued();
  }

  /** No regex matches, and the empty entry is still written. */
  lemma GluedNumberNotCited()
    ensures Entry(Glued, "1") == []
  {
    EntryIsUnionOfCaptures(Glued, "1");
    GluedAllCaptures();
    assert Dedup<string>([]) == [];
  }
}
