/**
 * Stage one of the normaliser, `expand_medical_abbreviations`: each
 * abbreviation pattern `\bABBR\b` of a fixed table is applied in table order,
 * as a case-insensitive, whole-word replace-all with a fixed lower-case
 * expansion. Every step rescans the output of the previous one.
 */
module Abbreviations {
  import opened Ascii
  import opened Tables
  import opened WordMatch
  import opened Rewrite

  /** The abbreviation dict in its declaration order; keys are the literal text between the `\b` anchors. */
  const AbbreviationTable: Table := [
    ("BP", "blood pressure"),
    ("HR", "heart rate"),
    ("RR", "respiratory rate"),
    ("T", "temperature"),
    ("O2", "oxygen"),
    ("O2 sat", "oxygen saturation"),
    ("ICU", "intensive care unit"),
    ("ED", "emergency department"),
    ("PT", "physical therapy"),
    ("OT", "occupational therapy"),
    ("Dx", "diagnosis"),
    ("Tx", "treatment"),
    ("Hx", "history"),
    ("Rx", "prescription"),
    ("Sx", "symptoms"),
    ("Fx", "fracture"),
    ("PMH", "past medical history"),
    ("FHx", "family history"),
    ("SHx", "social history"),
    ("NKDA", "no known drug allergies"),
    ("NPO", "nothing by mouth"),
    ("qd", "once daily"),
    ("bid", "twice daily"),
    ("tid", "three times daily"),
    ("qid", "four times daily"),
    ("prn", "as needed"),
    ("PO", "by mouth"),
    ("IV", "intravenous"),
    ("IM", "intramuscular"),
    ("SC", "subcutaneous"),
    ("HTN", "hypertension"),
    ("DM", "diabetes mellitus"),
    ("CHF", "congestive heart failure"),
    ("CAD", "coronary artery disease"),
    ("COPD", "chronic obstructive pulmonary disease"),
    ("UTI", "urinary tract infection"),
    ("MI", "myocardial infarction"),
    ("CVA", "cerebrovascular accident"),
    ("TIA", "transient ischemic attack")
  ]

  /** A non-empty phrase that begins and ends with a word character, so `\b` around it needs a non-word neighbour. */
  predicate IsWordPhrase(k: string) {
    |k| > 0 && IsWordChar(k[0]) && IsWordChar(k[|k| - 1])
  }

  /** `re.sub(r'\bABBR\b', expansion, text, flags=re.IGNORECASE)` for one table entry. */
  function ExpandStep(s: string, entry: (string, string)): string {
    SubstituteAll(s, [entry.0], Expand(entry.1))
  }

  /**
   * The loop over the table: a left fold of `ExpandStep` in table order,
   * written as "all entries but the last, then the last one".
   */
  function ExpandAll(s: string, table: Table): string
    decreases |table|
  {
    if |table| == 0 then s else ExpandStep(ExpandAll(s, table[..|table| - 1]), table[|table| - 1])
  }

  /** `expand_medical_abbreviations(text)`. */
  function ExpandAbbreviations(s: string): string {
    ExpandAll(s, AbbreviationTable)
  }

  /** No key of `table` occurs as a whole word anywhere in `s`. */
  predicate NoAbbreviationIn(s: string, table: Table) {
    forall j, p :: 0 <= j < |table| && 0 <= p <= |s| ==> !WholeWordAt(s, p, table[j].0)
  }

  /** Applying one table after another is applying their concatenation. */
  lemma {:induction false} ExpandAllAppend(s: string, a: Table, b: Table)
    ensures ExpandAll(s, a + b) == ExpandAll(ExpandAll(s, a), b)
    decreases |b|
  {
    if |b| > 0 {
      var n := |a + b| - 1;
      assert (a + b)[n] == b[|b| - 1];
      assert (a + b)[..n] == a + b[..|b| - 1];
      ExpandAllAppend(s, a, b[..|b| - 1]);
    } else {
      assert a + b == a;
    }
  }

  /** A text in which no abbreviation of `table` stands as a whole word comes back unchanged. */
  lemma {:induction false} ExpandAllUnchanged(s: string, table: Table)
    requires NoAbbreviationIn(s, table)
    ensures ExpandAll(s, table) == s
    decreases |table|
  {
    if |table| > 0 {
      var front, last := table[..|table| - 1], table[|table| - 1];
      assert NoAbbreviationIn(s, front) by {
        forall j, p | 0 <= j < |front| && 0 <= p <= |s|
          ensures !WholeWordAt(s, p, front[j].0)
        {
          assert front[j] == table[j];
        }
      }
      ExpandAllUnchanged(s, front);
      forall p | 0 <= p <= |s|
        ensures !OccursAt(s, p, [last.0])
      {
        assert !WholeWordAt(s, p, table[|table| - 1].0);
      }
      ScanUnchanged(s, [last.0], Expand(last.1), 0, false);
      assert s[0..] == s;
    }
  }

  /**
   * Once the entries before `n` have been applied, entries none of whose
   * keys stands as a whole word in the result leave it unchanged.
   */
  lemma {:induction false} ExpandAllUnchangedAfter(s: string, table: Table, n: nat)
    requires n <= |table|
    requires forall j, p :: n <= j < |table| && 0 <= p <= |ExpandAll(s, table[..n])| ==> !WholeWordAt(ExpandAll(s, table[..n]), p, table[j].0)
    ensures ExpandAll(s, table) == ExpandAll(s, table[..n])
    decreases |table|
  {
    if n < |table| {
      var front, last := table[..|table| - 1], table[|table| - 1];
      assert front[..n] == table[..n];
      ExpandAllUnchangedAfter(s, front, n);
      var u := ExpandAll(s, table[..n]);
      forall p | 0 <= p <= |u|
        ensures !OccursAt(u, p, [last.0])
      {
        assert !WholeWordAt(u, p, table[|table| - 1].0);
      }
      ScanUnchanged(u, [last.0], Expand(last.1), 0, false);
      assert u[0..] == u;
    } else {
      assert table[..n] == table;
    }
  }

  /** `expand_medical_abbreviations` leaves a text without any abbreviation as a whole word unchanged. */
  lemma ExpandAbbreviationsUnchanged(s: string)
    requires NoAbbreviationIn(s, AbbreviationTable)
    ensures ExpandAbbreviations(s) == s
  {
    ExpandAllUnchanged(s, AbbreviationTable);
  }

  /** A text without letters, digits or `_` holds no abbreviation as a whole word, so expansion returns it unchanged. */
  lemma ExpandWithoutWordChars(s: string, table: Table)
    requires forall i :: 0 <= i < |s| ==> !IsWordChar(s[i])
    ensures ExpandAll(s, table) == s
  {
    forall j, p | 0 <= j < |table| && 0 <= p <= |s|
      ensures !WholeWordAt(s, p, table[j].0)
    {
      assert !Boundary(s, p);
    }
    ExpandAllUnchanged(s, table);
  }

  /**
   * One expansion step on a text with exactly one whole-word occurrence of
   * the abbreviation, at `p`: that occurrence, in whatever case, becomes the
   * expansion and the rest of the text is kept.
   */
  lemma ExpandStepOneOccurrence(s: string, entry: (string, string), p: nat)
    requires |entry.0| > 0
    requires WholeWordAt(s, p, entry.0)
    requires forall q :: 0 <= q <= |s| && q != p ==> !WholeWordAt(s, q, entry.0)
    ensures p + |entry.0| <= |s|
    ensures ExpandStep(s, entry) == s[..p] + entry.1 + s[p + |entry.0|..]
  {
    var keys, rule, n := [entry.0], Expand(entry.1), |entry.0|;
    forall q | 0 <= q < p ensures !OccursAt(s, q, keys) { }
    ScanLeftmostFirst(s, keys, rule, 0, p, 0);
    forall q | p + n <= q <= |s| ensures !OccursAt(s, q, keys) { }
    ScanUnchanged(s, keys, rule, p + n, false);
  }

  /** A text that is a word phrase up to case is a whole-word match of that phrase, and the only one. */
  lemma StandaloneWordPhrase(w: string, k: string)
    requires IsWordPhrase(k)
    requires SameIgnoringCase(w, k)
    ensures WholeWordAt(w, 0, k)
    ensures forall q :: 0 < q <= |w| ==> !WholeWordAt(w, q, k)
  {
    SameIgnoringCaseAt(w, k);
    ToLowerKeepsWordChar(w[0]);
    ToLowerKeepsWordChar(k[0]);
    ToLowerKeepsWordChar(w[|w| - 1]);
    ToLowerKeepsWordChar(k[|k| - 1]);
  }

  /**
   * Every case variant of an abbreviation, standing alone, expands to the
   * same fixed expansion.
   */
  lemma StandaloneAbbreviation(w: string, entry: (string, string))
    requires IsWordPhrase(entry.0)
    requires SameIgnoringCase(w, entry.0)
    ensures ExpandStep(w, entry) == entry.1
  {
    var k := entry.0;
    StandaloneWordPhrase(w, k);
    ExpandStepOneOccurrence(w, entry, 0);
    assert w[..0] == [] && w[|k|..] == [];
  }

  /**
   * A text that is, up to case, the abbreviation of entry `i` and no other
   * abbreviation before it becomes that entry's expansion, provided no later
   * abbreviation stands as a whole word in the expansion.
   */
  lemma ExpandAllStandalone(w: string, table: Table, i: nat)
    requires i < |table| && IsWordPhrase(table[i].0) && SameIgnoringCase(w, table[i].0)
    requires NoAbbreviationIn(w, table[..i])
    requires forall j, p :: i < j < |table| && 0 <= p <= |table[i].1| ==> !WholeWordAt(table[i].1, p, table[j].0)
    ensures ExpandAll(w, table) == table[i].1
  {
    ExpandAllUnchanged(w, table[..i]);
    assert table[..i + 1][..i] == table[..i];
    assert table[..i + 1][i] == table[i];
    StandaloneAbbreviation(w, table[i]);
    ExpandAllUnchangedAfter(w, table, i + 1);
  }

  /**
   * Changing the case of letters in the input changes the expanded text at
   * most in the case of its letters.
   */
  lemma {:induction false} ExpandAllIgnoresCase(s: string, t: string, table: Table)
    requires SameIgnoringCase(s, t)
    ensures SameIgnoringCase(ExpandAll(s, table), ExpandAll(t, table))
    decreases |table|
  {
    if |table| > 0 {
      var front, last := table[..|table| - 1], table[|table| - 1];
      ExpandAllIgnoresCase(s, t, front);
      ScanIgnoresCase(ExpandAll(s, front), ExpandAll(t, front), [last.0], Expand(last.1), 0, false);
    }
  }

  // The "O2 sat" entry is shadowed by the "O2" entry applied just before it.

  /**
   * No "o2" (any case) in `t` stands as a whole word, where `prevWord` says
   * whether the character just before `t` is a word character.
   */
  ghost predicate NoStandaloneO2(t: string, prevWord: bool) {
    forall p: nat :: O2Candidate(t, p, prevWord) ==> WordAt(t, p + 2)
  }

  /** An "o2" (any case) at `p` with no word character before it. */
  predicate O2Candidate(t: string, p: nat, prevWord: bool) {
    && p + 2 <= |t|
    && (if p == 0 then !prevWord else !IsWordChar(t[p - 1]))
    && ToLower(t[p]) == 'o' && t[p + 1] == '2'
  }

  /** The first character of the "O2" step's output from index `i`. */
  lemma O2ScanHead(s: string, i: nat)
    requires i <= |s|
    ensures var t := Scan(s, ["O2"], Expand("oxygen"), i, false);
            && (i == |s| ==> t == [])
            && (i < |s| ==> |t| > 0 && (t[0] == 'o' || (t[0] == s[i] && FirstAltMatch(s, i, ["O2"], false).None?)))
  {
  }

  /** An expansion "oxygen" in front of a text creates no whole-word "O2". */
  lemma NoStandaloneO2AfterExpansion(rest: string, prevWord: bool)
    requires NoStandaloneO2(rest, true)
    ensures NoStandaloneO2("oxygen" + rest, prevWord)
  {
    var t := "oxygen" + rest;
    forall p: nat | O2Candidate(t, p, prevWord)
      ensures WordAt(t, p + 2)
    {
      if p < 6 {
        assert false;
      } else {
        var q := p - 6;
        assert t[p - 1] == rest[q - 1] && t[p] == rest[q] && t[p + 1] == rest[q + 1];
        assert O2Candidate(rest, q, true);
        if p + 2 < |t| { assert t[p + 2] == rest[q + 2]; }
      }
    }
  }

  /** A kept character in front of a text creates no whole-word "O2", unless it starts one itself. */
  lemma NoStandaloneO2AfterKept(c: char, rest: string, prevWord: bool)
    requires NoStandaloneO2(rest, IsWordChar(c))
    requires !prevWord && ToLower(c) == 'o' && 1 <= |rest| && rest[0] == '2'
             ==> 1 < |rest| && IsWordChar(rest[1])
    ensures NoStandaloneO2([c] + rest, prevWord)
  {
    var t := [c] + rest;
    forall p: nat | O2Candidate(t, p, prevWord)
      ensures WordAt(t, p + 2)
    {
      if p == 0 {
        assert t[1] == rest[0];
        if 1 < |rest| { assert t[2] == rest[1]; }
      } else {
        var q := p - 1;
        assert t[p] == rest[q] && t[p + 1] == rest[q + 1];
        assert if q == 0 then !IsWordChar(c) else !IsWordChar(rest[q - 1]) by {
          if q > 0 { assert t[p - 1] == rest[q - 1]; }
        }
        assert O2Candidate(rest, q, IsWordChar(c));
        if p + 2 < |t| { assert t[p + 2] == rest[q + 2]; }
      }
    }
  }

  /** After the "O2" step no "O2" is left as a whole word. */
  lemma {:induction false} O2StepLeavesNoStandaloneO2(s: string, i: nat, prevWord: bool)
    requires i <= |s|
    requires !prevWord ==> i == 0 || !IsWordChar(s[i - 1])
    ensures NoStandaloneO2(Scan(s, ["O2"], Expand("oxygen"), i, false), prevWord)
    decreases |s| - i
  {
    var keys, rule := ["O2"], Expand("oxygen");
    match FirstAltMatch(s, i, keys, false)
    case Some(a) =>
      O2StepLeavesNoStandaloneO2(s, i + 2, true);
      NoStandaloneO2AfterExpansion(Scan(s, keys, rule, i + 2, false), prevWord);
    case None =>
      if i < |s| {
        O2StepLeavesNoStandaloneO2(s, i + 1, IsWordChar(s[i]));
        O2HitAt(s, i, prevWord);
        NoStandaloneO2AfterKept(s[i], Scan(s, keys, rule, i + 1, false), prevWord);
      }
  }

  /**
   * The case of the proof above where a kept character starts "o2": the two
   * characters and the one after them must all be kept from the input, so
   * the input itself held a whole-word "O2" there, which the step would
   * have replaced.
   */
  lemma O2HitAt(s: string, i: nat, prevWord: bool)
    requires i < |s|
    requires !prevWord ==> i == 0 || !IsWordChar(s[i - 1])
    requires FirstAltMatch(s, i, ["O2"], false).None?
    ensures var rest := Scan(s, ["O2"], Expand("oxygen"), i + 1, false);
            !prevWord && ToLower(s[i]) == 'o' && 1 <= |rest| && rest[0] == '2'
            ==> 1 < |rest| && IsWordChar(rest[1])
  {
    var keys, rule := ["O2"], Expand("oxygen");
    var rest := Scan(s, keys, rule, i + 1, false);
    if !prevWord && ToLower(s[i]) == 'o' && 1 <= |rest| && rest[0] == '2' {
      O2ScanHead(s, i + 1);
      ScanAtNoMatch(s, keys, rule, i + 1, false);
      O2ScanHead(s, i + 2);
      StandaloneO2Admissible(s, i);
      FirstAltMatchSpec(s, i, keys, false);
    }
  }

  /** An "o2" (any case) with no word character on either side is a match of the "O2" step. */
  lemma StandaloneO2Admissible(s: string, i: nat)
    ensures && i + 2 <= |s|
            && (i == 0 || !IsWordChar(s[i - 1]))
            && ToLower(s[i]) == 'o' && s[i + 1] == '2'
            && (i + 2 == |s| || !IsWordChar(s[i + 2]))
            ==> Admissible(s, i, "O2", false)
  {
    if i + 2 <= |s| && ToLower(s[i]) == 'o' && s[i + 1] == '2' {
      var k := "O2";
      assert ToLower(s[i + 0]) == ToLower(k[0]) && ToLower(s[i + 1]) == ToLower(k[1]);
      assert MatchesAt(s, i, k);
    }
  }

  /** A whole-word "O2 sat" begins with an "O2" that is itself a whole word. */
  lemma StandaloneO2SatStartsStandaloneO2(u: string, p: nat)
    ensures WholeWordAt(u, p, "O2 sat") ==>
              && p + 2 < |u|
              && (p > 0 ==> !IsWordChar(u[p - 1]))
              && ToLower(u[p]) == 'o' && u[p + 1] == '2'
              && !IsWordChar(u[p + 2])
  {
    var k := "O2 sat";
    if WholeWordAt(u, p, k) {
      assert ToLower(u[p + 0]) == ToLower(k[0]);
      assert ToLower(u[p + 1]) == ToLower(k[1]);
      assert ToLower(u[p + 2]) == ToLower(k[2]);
    }
  }

  /** Right after the "O2" step, the "O2 sat" step never finds anything to replace. */
  lemma O2SatNeverFiresAfterO2(s: string)
    ensures var u := ExpandStep(s, ("O2", "oxygen"));
            ExpandStep(u, ("O2 sat", "oxygen saturation")) == u
  {
    var u := ExpandStep(s, ("O2", "oxygen"));
    O2StepLeavesNoStandaloneO2(s, 0, false);
    var k := "O2 sat";
    forall p | 0 <= p <= |u|
      ensures !WholeWordAt(u, p, k)
    {
      StandaloneO2SatStartsStandaloneO2(u, p);
      if WholeWordAt(u, p, k) {
        assert O2Candidate(u, p, false);
      }
    }
    assert forall p :: 0 <= p <= |u| ==> !OccursAt(u, p, [k]);
    ScanUnchanged(u, [k], Expand("oxygen saturation"), 0, false);
    assert u[0..] == u;
  }

  /**
   * In any table that lists "O2" right before "O2 sat", the "O2 sat" entry
   * can be dropped without changing the result.
   */
  lemma O2SatShadowed(s: string, table: Table, n: nat)
    requires n + 1 < |table|
    requires table[n] == ("O2", "oxygen") && table[n + 1] == ("O2 sat", "oxygen saturation")
    ensures ExpandAll(s, table) == ExpandAll(s, table[..n + 1] + table[n + 2..])
  {
    var front, o2, sat, back := table[..n], table[n], table[n + 1], table[n + 2..];
    assert table == (front + [o2] + [sat]) + back;
    assert table[..n + 1] == front + [o2];
    ExpandAllAppend(s, front + [o2] + [sat], back);
    ExpandAllAppend(s, front + [o2], [sat]);
    ExpandAllAppend(s, front + [o2], back);
    var u := ExpandAll(s, front + [o2]);
    ExpandAllAppend(s, front, [o2]);
    assert [o2][..0] == [] && [sat][..0] == [];
    O2SatNeverFiresAfterO2(ExpandAll(s, front));
    assert ExpandAll(u, [sat]) == ExpandStep(u, sat);
  }

  /**
   * Because "O2" is expanded before "O2 sat", the "oxygen saturation" entry
   * never fires: the table behaves exactly as if that entry were absent.
   */
  lemma O2SatEntryIsDead(s: string)
    ensures AbbreviationTable[5] == ("O2 sat", "oxygen saturation")
    ensures ExpandAbbreviations(s) == ExpandAll(s, AbbreviationTable[..5] + AbbreviationTable[6..])
  {
    var T := AbbreviationTable;
    assert T[4] == ("O2", "oxygen");
    assert T[5] == ("O2 sat", "oxygen saturation");
    O2SatShadowed(s, T, 4);
  }
}
