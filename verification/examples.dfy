/**
 * Concrete behaviour of the normaliser on small inputs, including the
 * surprising cases that the tables and the regex semantics produce. Each
 * example is assembled from the general lemmas of the other modules; the
 * facts about one concrete text (where its words start, which character
 * rules a key out) are kept in lemmas of their own.
 */
module Examples {
  import opened Wrappers
  import opened Ascii
  import opened Tables
  import opened WordMatch
  import opened Rewrite
  import opened Abbreviations
  import opened Terminology

  /** One expansion step with a single whole-word hit at `p`, its result spelled out as `r`. */
  lemma SpliceStep(s: string, entry: (string, string), p: nat, r: string)
    requires |entry.0| > 0 && WholeWordAt(s, p, entry.0)
    requires forall q :: 0 <= q <= |s| && q != p ==> !WholeWordAt(s, q, entry.0)
    requires p + |entry.0| <= |s| && r == s[..p] + entry.1 + s[p + |entry.0|..]
    ensures ExpandStep(s, entry) == r
  {
    ExpandStepOneOccurrence(s, entry, p);
  }

  // ---------------------------------------------------------------------
  // Whole-word matching

  /** A hyphen is not a word character, so the "T" of "T-cell" is a whole word and expands. */
  lemma HyphenSplitsWords()
    ensures ExpandStep("T-cell", ("T", "temperature")) == "temperature-cell"
  {
    TCellHasOneT();
    SpliceStep("T-cell", ("T", "temperature"), 0, "temperature-cell");
  }

  /** In "T-cell" the only whole-word "T" is the first character. */
  lemma TCellHasOneT()
    ensures WholeWordAt("T-cell", 0, "T")
    ensures forall q :: 0 < q <= 6 ==> !WholeWordAt("T-cell", q, "T")
  {
    var s := "T-cell";
    forall q | 0 < q <= |s|
      ensures !WholeWordAt(s, q, "T")
    {
      if q == 2 {
        MismatchAt(s, q, "T", 0);
      } else {
        MatchStartsWord(s, q, "T");
      }
    }
  }

  /** An abbreviation glued to further word characters is not a whole word and is kept: "BPM" stays. */
  lemma GluedBpKept()
    ensures ExpandStep("BPM", ("BP", "blood pressure")) == "BPM"
  {
    var e := ("BP", "blood pressure");
    NoBpInBPM();
    ExpandAllUnchanged("BPM", [e]);
    assert [e][..0] == [];
  }

  /** "BPM" holds no whole-word "BP". */
  lemma NoBpInBPM()
    ensures NoAbbreviationIn("BPM", [("BP", "blood pressure")])
  {
    forall j, p | 0 <= j < 1 && 0 <= p <= 3
      ensures !WholeWordAt("BPM", p, [("BP", "blood pressure")][j].0)
    {
      WholeWordInWord("BPM", p, "BP");
    }
  }

  /** Likewise "HRs" stays. */
  lemma GluedHrKept()
    ensures ExpandStep("HRs", ("HR", "heart rate")) == "HRs"
  {
    var e := ("HR", "heart rate");
    NoHrInHRs();
    ExpandAllUnchanged("HRs", [e]);
    assert [e][..0] == [];
  }

  /** "HRs" holds no whole-word "HR". */
  lemma NoHrInHRs()
    ensures NoAbbreviationIn("HRs", [("HR", "heart rate")])
  {
    forall j, p | 0 <= j < 1 && 0 <= p <= 3
      ensures !WholeWordAt("HRs", p, [("HR", "heart rate")][j].0)
    {
      WholeWordInWord("HRs", p, "HR");
    }
  }

  /** Every case variant of "BP" standing alone expands to the same text. */
  lemma CaseVariantsExpand(w: string)
    requires w == "bp" || w == "Bp" || w == "bP" || w == "BP"
    ensures ExpandStep(w, ("BP", "blood pressure")) == "blood pressure"
  {
    SameIgnoringCaseAt(w, "BP");
    StandaloneAbbreviation(w, ("BP", "blood pressure"));
  }

  // ---------------------------------------------------------------------
  // "Pt" goes through the whole abbreviation stage

  /** No abbreviation before "PT" in the table has two letters and starts with "p". */
  lemma KeysBeforePt()
    ensures forall j :: 0 <= j < 8 ==> |AbbreviationTable[j].0| > 0
    ensures forall j :: 0 <= j < 8 && |AbbreviationTable[j].0| == 2 ==> ToLower(AbbreviationTable[j].0[0]) != 'p'
  {
  }

  /** From entry 4 on, every abbreviation has at least two characters and begins with a word character. */
  lemma LaterKeysWordInitial()
    ensures forall j :: 4 <= j < |AbbreviationTable| ==> |AbbreviationTable[j].0| >= 2 && IsWordChar(AbbreviationTable[j].0[0])
  {
  }

  /** In "physical therapy" words start only at 0 and 9. */
  lemma PhysicalTherapyWords()
    ensures forall q :: 0 <= q <= 16 && WordStart("physical therapy", q) ==> q == 0 || q == 9
  {
  }

  /** No abbreviation after "PT" stands as a whole word in "physical therapy". */
  lemma NoAbbreviationAfterPt()
    ensures forall j, p :: 8 < j < |AbbreviationTable| && 0 <= p <= |AbbreviationTable[8].1| ==> !WholeWordAt(AbbreviationTable[8].1, p, AbbreviationTable[j].0)
  {
    assert AbbreviationTable[8].1 == "physical therapy";
    NoAbbreviationInPhysicalTherapy(9, 24);
    NoAbbreviationInPhysicalTherapy(24, 39);
  }

  /** No abbreviation of entries `lo..hi-1` (all after "PT") stands as a whole word in "physical therapy". */
  lemma NoAbbreviationInPhysicalTherapy(lo: nat, hi: nat)
    requires 8 < lo <= hi <= |AbbreviationTable|
    ensures forall j, p :: lo <= j < hi && 0 <= p <= 16 ==> !WholeWordAt("physical therapy", p, AbbreviationTable[j].0)
  {
    var T, s := AbbreviationTable, "physical therapy";
    LaterKeysWordInitial();
    PhysicalTherapyWords();
    forall j, p | lo <= j < hi && 0 <= p <= |s|
      ensures !WholeWordAt(s, p, T[j].0)
    {
      if p == 0 || p == 9 {
        MismatchAt(s, p, T[j].0, if ToLower(T[j].0[0]) == s[p] then 1 else 0);
      } else {
        MatchStartsWord(s, p, T[j].0);
      }
    }
  }

  /** "Pt" (as in "patient") is a case variant of "PT" and becomes "physical therapy". */
  lemma PtIsPhysicalTherapy()
    ensures ExpandAbbreviations("Pt") == "physical therapy"
  {
    var T := AbbreviationTable;
    KeysBeforePt();
    forall j, p | 0 <= j < 8 && 0 <= p <= 2
      ensures !WholeWordAt("Pt", p, T[..8][j].0)
    {
      if |T[j].0| == 2 {
        MismatchAt("Pt", 0, T[j].0, 0);
      }
      WholeWordInWord("Pt", p, T[j].0);
    }
    SameIgnoringCaseAt("Pt", "PT");
    NoAbbreviationAfterPt();
    ExpandAllStandalone("Pt", T, 8);
  }

  // ---------------------------------------------------------------------
  // "O2 sat": the "O2" entry fires first

  /** In "O2 sat" and in "oxygen sat" words start only at the first character and at "sat". */
  lemma O2SatWords()
    ensures forall q :: 0 <= q <= 6 && WordStart("O2 sat", q) ==> q == 0 || q == 3
    ensures forall q :: 0 <= q <= 10 && WordStart("oxygen sat", q) ==> q == 0 || q == 7
  {
  }

  /** The four entries before "O2" leave "O2 sat" alone. */
  lemma NoAbbreviationBeforeO2()
    ensures NoAbbreviationIn("O2 sat", AbbreviationTable[..4])
  {
    var T, s := AbbreviationTable, "O2 sat";
    O2SatWords();
    forall j, p | 0 <= j < 4 && 0 <= p <= |s|
      ensures !WholeWordAt(s, p, T[..4][j].0)
    {
      if p == 0 || p == 3 {
        MismatchAt(s, p, T[j].0, 0);
      } else {
        MatchStartsWord(s, p, T[j].0);
      }
    }
  }

  /** No entry of `lo..hi-1` (all from "O2 sat" on) stands as a whole word in "oxygen sat". */
  lemma NoAbbreviationInOxygenSat(lo: nat, hi: nat)
    requires 4 < lo <= hi <= |AbbreviationTable|
    ensures forall j, p :: lo <= j < hi && 0 <= p <= 10 ==> !WholeWordAt("oxygen sat", p, AbbreviationTable[j].0)
  {
    var T, s := AbbreviationTable, "oxygen sat";
    LaterKeysWordInitial();
    O2SatWords();
    forall j, p | lo <= j < hi && 0 <= p <= |s|
      ensures !WholeWordAt(s, p, T[j].0)
    {
      if p == 0 || p == 7 {
        MismatchAt(s, p, T[j].0, if ToLower(T[j].0[0]) == s[p] then 1 else 0);
      } else {
        MatchStartsWord(s, p, T[j].0);
      }
    }
  }

  /**
   * "O2 sat" becomes "oxygen sat", not "oxygen saturation": the "O2" entry
   * is applied first and leaves nothing for the "O2 sat" entry to match.
   */
  lemma O2SatBecomesOxygenSat()
    ensures ExpandAbbreviations("O2 sat") == "oxygen sat"
  {
    var T, s := AbbreviationTable, "O2 sat";
    NoAbbreviationBeforeO2();
    ExpandAllUnchanged(s, T[..4]);
    O2SatWords();
    forall q | 0 < q <= |s|
      ensures !WholeWordAt(s, q, "O2")
    {
      if q == 3 {
        MismatchAt(s, q, "O2", 0);
      } else {
        MatchStartsWord(s, q, "O2");
      }
    }
    SpliceStep(s, ("O2", "oxygen"), 0, "oxygen sat");
    assert T[..5][..4] == T[..4] && T[..5][4] == T[4] == ("O2", "oxygen");
    NoAbbreviationInOxygenSat(5, 22);
    NoAbbreviationInOxygenSat(22, 39);
    ExpandAllUnchangedAfter(s, T, 5);
  }

  // ---------------------------------------------------------------------
  // "CHF": expansion, then standardisation of what the expansion produced

  /** In "congestive heart failure" words start only at 0, 11 and 17. */
  lemma ChfWords()
    ensures forall q :: 0 <= q <= 24 && WordStart("congestive heart failure", q) ==> q == 0 || q == 11 || q == 17
  {
  }

  /** No abbreviation before "CHF" in the table has three letters and starts with "c". */
  lemma KeysBeforeChf()
    ensures forall j :: 0 <= j < 32 ==> |AbbreviationTable[j].0| > 0
    ensures forall j :: 0 <= j < 32 && |AbbreviationTable[j].0| == 3 ==> ToLower(AbbreviationTable[j].0[0]) != 'c'
  {
  }

  /** No abbreviation after "CHF" stands as a whole word in "congestive heart failure". */
  lemma NoAbbreviationAfterChf()
    ensures forall j, p :: 32 < j < |AbbreviationTable| && 0 <= p <= |AbbreviationTable[32].1| ==> !WholeWordAt(AbbreviationTable[32].1, p, AbbreviationTable[j].0)
  {
    var T, s := AbbreviationTable, "congestive heart failure";
    assert T[32].1 == s;
    LaterKeysWordInitial();
    ChfWords();
    forall j, p | 32 < j < |T| && 0 <= p <= |s|
      ensures !WholeWordAt(s, p, T[j].0)
    {
      if p == 0 || p == 11 || p == 17 {
        var m := if p == 0 && j == 34 then 2 else if p == 0 && (j == 33 || j == 37) then 1 else 0;
        MismatchAt(s, p, T[j].0, m);
      } else {
        MatchStartsWord(s, p, T[j].0);
      }
    }
  }

  /** "CHF" goes through the abbreviation stage as "congestive heart failure". */
  lemma ChfExpands()
    ensures ExpandAbbreviations("CHF") == "congestive heart failure"
  {
    var T := AbbreviationTable;
    KeysBeforeChf();
    forall j, p | 0 <= j < 32 && 0 <= p <= 3
      ensures !WholeWordAt("CHF", p, T[..32][j].0)
    {
      if |T[j].0| == 3 {
        MismatchAt("CHF", 0, T[j].0, 0);
      }
      WholeWordInWord("CHF", p, T[j].0);
    }
    NoAbbreviationAfterChf();
    ExpandAllStandalone("CHF", T, 32);
  }

  /** Every key of the cardiology dict begins with a word character. */
  lemma CardiologyKeysWordInitial()
    ensures forall j :: 0 <= j < |CardiologyTerms| ==> |CardiologyTerms[j].0| > 0 && IsWordChar(CardiologyTerms[j].0[0])
  {
  }

  /** Every key of the general dict begins with a word character. */
  lemma GeneralKeysWordInitial()
    ensures forall j :: 0 <= j < |GeneralTerms| ==> |GeneralTerms[j].0| > 0 && IsWordChar(GeneralTerms[j].0[0])
  {
  }

  /** In "congestive heart failure" the cardiology keys stand as whole words only at "heart failure". */
  lemma CardiologyHitOnlyAtHeartFailure()
    ensures NoTermElsewhere("congestive heart failure", CardiologyTerms, 11)
  {
    var s := "congestive heart failure";
    CardiologyKeysWordInitial();
    ChfWords();
    forall j, p | 0 <= j < |CardiologyTerms| && 0 <= p <= |s| && p != 11
      ensures !WholeWordAt(s, p, CardiologyTerms[j].0)
    {
      if p == 0 || p == 17 {
        var m := if (p == 0 && j == 1) || (p == 17 && j == 8) then 1 else 0;
        MismatchAt(s, p, CardiologyTerms[j].0, m);
      } else {
        MatchStartsWord(s, p, CardiologyTerms[j].0);
      }
    }
  }

  /** At "heart failure", the first cardiology key that stands as a whole word is "heart failure" itself. */
  lemma CardiologyFirstAtHeartFailure()
    ensures FirstTermAt("congestive heart failure", CardiologyTerms, 11, 3)
  {
    var s := "congestive heart failure";
    forall j | 0 <= j < 3
      ensures !WholeWordAt(s, 11, CardiologyTerms[j].0)
    {
      MismatchAt(s, 11, CardiologyTerms[j].0, if j == 0 then 6 else 0);
    }
    assert s[11..24] == CardiologyTerms[3].0;
    MatchesSlice(s, 11, CardiologyTerms[3].0);
  }

  /** The cardiology entry for "heart failure", the first entry with that key. */
  lemma HeartFailureEntry()
    ensures CardiologyTerms[3] == ("heart failure", "congestive heart failure")
    ensures forall b :: 0 <= b < 3 ==> CardiologyTerms[b].0 != CardiologyTerms[3].0
  {
  }

  /** The key "heart failure" is already lower case. */
  lemma HeartFailureLowerCase()
    ensures Lower("heart failure") == "heart failure"
  {
    LowerKeepsLowerCase("heart failure");
  }

  /** The pieces the cardiology pass splices together. */
  lemma ChfPieces()
    ensures "congestive heart failure" == "congestive " + "heart failure" + ""
    ensures "congestive congestive heart failure" == "congestive " + "congestive heart failure" + ""
  {
  }

  /** The cardiology pass rewrites the "heart failure" inside "congestive heart failure". */
  lemma ChfCardiologyPass()
    ensures SubstituteTerms("congestive heart failure", CardiologyTerms) == "congestive congestive heart failure"
  {
    CardiologyHitOnlyAtHeartFailure();
    CardiologyFirstAtHeartFailure();
    HeartFailureEntry();
    HeartFailureLowerCase();
    ChfPieces();
    SubstituteTermsSplice("congestive heart failure", "congestive ", "", CardiologyTerms, 3, "congestive congestive heart failure");
  }

  /** No key of the general dict stands as a whole word in "congestive heart failure". */
  lemma GeneralNoHitInChf()
    ensures NoTermIn("congestive heart failure", GeneralTerms)
  {
    var s := "congestive heart failure";
    GeneralKeysWordInitial();
    ChfWords();
    forall j, p | 0 <= j < |GeneralTerms| && 0 <= p <= |s|
      ensures !WholeWordAt(s, p, GeneralTerms[j].0)
    {
      if p == 0 || p == 11 || p == 17 {
        var m := if p != 11 then 0 else if j == 0 then 6 else if j == 2 then 1 else if j == 8 then 5 else 0;
        MismatchAt(s, p, GeneralTerms[j].0, m);
      } else {
        MatchStartsWord(s, p, GeneralTerms[j].0);
      }
    }
  }

  /**
   * With the built-in dicts (no document, or one written from the defaults),
   * "CHF" in a cardiology context comes out as "congestive congestive heart
   * failure": the term pass standardises the text the expansion produced.
   */
  lemma ChfInCardiology(loaded: Option<Document>)
    requires loaded == None || loaded == Some(DefaultMedicalTerms)
    ensures Enhance("CHF", "cardiology", loaded) == "congestive congestive heart failure"
  {
    ChfExpands();
    DefaultContextSelected(1);
    ChfCardiologyPass();
  }

  /**
   * In the general context, and in any context the built-in dicts do not
   * name, "CHF" comes out as "congestive heart failure".
   */
  lemma ChfInGeneral(context: string, loaded: Option<Document>)
    requires loaded == None || loaded == Some(DefaultMedicalTerms)
    requires forall i :: 1 <= i < |DefaultMedicalTerms| ==> DefaultMedicalTerms[i].0 != context
    ensures Enhance("CHF", context, loaded) == "congestive heart failure"
  {
    ChfExpands();
    if context == DefaultMedicalTerms[0].0 {
      DefaultContextSelected(0);
    } else {
      UnknownContextSelectsGeneral(context);
    }
    GeneralNoHitInChf();
    SubstituteTermsUnchanged("congestive heart failure", GeneralTerms);
  }

  // ---------------------------------------------------------------------
  // Enhancing twice is not enhancing once

  /** In "congestive congestive heart failure" words start only at 0, 11, 22 and 28. */
  lemma TwiceWords()
    ensures forall q :: 0 <= q <= 35 && WordStart("congestive congestive heart failure", q) ==> q == 0 || q == 11 || q == 22 || q == 28
  {
  }

  /** Every abbreviation begins with a word character. */
  lemma KeysWordInitial()
    ensures forall j :: 0 <= j < |AbbreviationTable| ==> |AbbreviationTable[j].0| > 0 && IsWordChar(AbbreviationTable[j].0[0])
  {
  }

  /** Every abbreviation but "O2 sat" has at most four characters. */
  lemma KeysShort()
    ensures forall j :: 0 <= j < |AbbreviationTable| && j != 5 ==> |AbbreviationTable[j].0| <= 4
  {
  }

  /** "congestive congestive heart failure" has word characters everywhere but its two spaces between words. */
  lemma TwiceLetters()
    ensures forall i :: 0 <= i < 35 && i != 10 && i != 21 && i != 27 ==> WordAt("congestive congestive heart failure", i)
  {
  }

  /**
   * No abbreviation stands as a whole word anywhere in "congestive congestive
   * heart failure": every word there is longer than four letters, so a short
   * abbreviation that starts a word stops inside it.
   */
  lemma NoAbbreviationInTwice()
    ensures NoAbbreviationIn("congestive congestive heart failure", AbbreviationTable)
  {
    var T, s := AbbreviationTable, "congestive congestive heart failure";
    KeysWordInitial();
    KeysShort();
    TwiceWords();
    TwiceLetters();
    forall j, p | 0 <= j < |T| && 0 <= p <= |s|
      ensures !WholeWordAt(s, p, T[j].0)
    {
      if !(p == 0 || p == 11 || p == 22 || p == 28) {
        MatchStartsWord(s, p, T[j].0);
      } else if j == 5 {
        MismatchAt(s, p, T[j].0, 0);
      } else {
        assert !Boundary(s, p + |T[j].0|);
      }
    }
  }

  /** In "congestive congestive heart failure" the cardiology keys stand as whole words only at "heart failure". */
  lemma CardiologyHitOnlyAtHeartFailureTwice()
    ensures NoTermElsewhere("congestive congestive heart failure", CardiologyTerms, 22)
  {
    var s := "congestive congestive heart failure";
    CardiologyKeysWordInitial();
    TwiceWords();
    forall j, p | 0 <= j < |CardiologyTerms| && 0 <= p <= |s| && p != 22
      ensures !WholeWordAt(s, p, CardiologyTerms[j].0)
    {
      if p == 0 || p == 11 || p == 28 {
        var m := if (p != 28 && j == 1) || (p == 28 && j == 8) then 1 else 0;
        MismatchAt(s, p, CardiologyTerms[j].0, m);
      } else {
        MatchStartsWord(s, p, CardiologyTerms[j].0);
      }
    }
  }

  /** At the second "heart failure", the first cardiology key that stands as a whole word is "heart failure". */
  lemma CardiologyFirstAtHeartFailureTwice()
    ensures FirstTermAt("congestive congestive heart failure", CardiologyTerms, 22, 3)
  {
    var s := "congestive congestive heart failure";
    forall j | 0 <= j < 3
      ensures !WholeWordAt(s, 22, CardiologyTerms[j].0)
    {
      MismatchAt(s, 22, CardiologyTerms[j].0, if j == 0 then 6 else 0);
    }
    HeartFailureEntry();
    HeartFailureAtEndOfTwice();
  }

  /** "heart failure" ends "congestive congestive heart failure" as a whole word. */
  lemma HeartFailureAtEndOfTwice()
    ensures WholeWordAt("congestive congestive heart failure", 22, "heart failure")
  {
    var s := "congestive congestive heart failure";
    assert s[22..35] == "heart failure";
    MatchesSlice(s, 22, "heart failure");
  }

  /** The pieces the second cardiology pass splices together. */
  lemma TwicePieces()
    ensures "congestive congestive heart failure" == "congestive congestive " + "heart failure" + ""
    ensures "congestive congestive congestive heart failure" == "congestive congestive " + "congestive heart failure" + ""
  {
  }

  /**
   * `enhance_medical_terminology` is not idempotent: enhancing the cardiology
   * result for "CHF" once more adds a third "congestive".
   */
  lemma EnhanceNotIdempotent(loaded: Option<Document>)
    requires loaded == None || loaded == Some(DefaultMedicalTerms)
    ensures Enhance("CHF", "cardiology", loaded) == "congestive congestive heart failure"
    ensures Enhance("congestive congestive heart failure", "cardiology", loaded) == "congestive congestive congestive heart failure"
  {
    var u := "congestive congestive heart failure";
    ChfInCardiology(loaded);
    NoAbbreviationInTwice();
    ExpandAbbreviationsUnchanged(u);
    DefaultContextSelected(1);
    CardiologyHitOnlyAtHeartFailureTwice();
    CardiologyFirstAtHeartFailureTwice();
    HeartFailureEntry();
    HeartFailureLowerCase();
    TwicePieces();
    SubstituteTermsSplice(u, "congestive congestive ", "", CardiologyTerms, 3, "congestive congestive congestive heart failure");
  }
}
