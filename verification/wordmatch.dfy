/**
 * Matching of the patterns the normaliser builds: a literal phrase between
 * two `\b` anchors, compiled with `re.IGNORECASE`. A pattern built from
 * several phrases is the alternation `\b(k1|k2|...)\b`, whose alternatives
 * the regex engine tries in order, backtracking into the next one whenever
 * the closing `\b` fails.
 */
module WordMatch {
  import opened Ascii
  import opened Wrappers

  /** There is a word character at index `i` (out of range counts as none). */
  predicate WordAt(s: string, i: int) {
    0 <= i < |s| && IsWordChar(s[i])
  }

  /** `\b` at index `i`: exactly one of the characters around `i` is a word character. */
  predicate Boundary(s: string, i: int) {
    WordAt(s, i - 1) != WordAt(s, i)
  }

  /** The literal `k` occurs at index `i` of `s`, ignoring case. */
  predicate MatchesAt(s: string, i: nat, k: string) {
    i + |k| <= |s| && forall j :: 0 <= j < |k| ==> ToLower(s[i + j]) == ToLower(k[j])
  }

  /** `\bk\b` matches at index `i` of `s`, ignoring case. */
  predicate WholeWordAt(s: string, i: nat, k: string) {
    Boundary(s, i) && MatchesAt(s, i, k) && Boundary(s, i + |k|)
  }

  /**
   * A match of `k` that the engine may report at `i`: after an empty match at
   * `i` the next search must not return another empty match at `i`
   * (`mustAdvance`).
   */
  predicate Admissible(s: string, i: nat, k: string, mustAdvance: bool) {
    WholeWordAt(s, i, k) && (mustAdvance ==> |k| > 0)
  }

  /** Some key of `keys` matches as a whole word at index `i`. */
  predicate OccursAt(s: string, i: nat, keys: seq<string>) {
    exists j {:trigger WholeWordAt(s, i, keys[j])} :: 0 <= j < |keys| && WholeWordAt(s, i, keys[j])
  }

  /**
   * The alternative of `\b(keys[0]|keys[1]|...)\b` that matches at index `i`:
   * the first key in declaration order that matches, which need not be the
   * longest one. The contract keeps only what the pass needs to continue;
   * `FirstAltMatchSpec` characterises the choice.
   */
  function FirstAltMatch(s: string, i: nat, keys: seq<string>, mustAdvance: bool): (r: Option<nat>)
    ensures r.Some? ==> r.value < |keys| && i + |keys[r.value]| <= |s|
    ensures r.Some? && mustAdvance ==> |keys[r.value]| > 0
  {
    FirstAltFrom(s, i, keys, mustAdvance, 0)
  }

  /** The search of `FirstAltMatch`, from alternative `from` on. */
  function FirstAltFrom(s: string, i: nat, keys: seq<string>, mustAdvance: bool, from: nat): (r: Option<nat>)
    requires from <= |keys|
    decreases |keys| - from
    ensures r.Some? ==> from <= r.value < |keys| && i + |keys[r.value]| <= |s|
    ensures r.Some? && mustAdvance ==> |keys[r.value]| > 0
  {
    if from == |keys| then None
    else if Admissible(s, i, keys[from], mustAdvance) then Some(from)
    else FirstAltFrom(s, i, keys, mustAdvance, from + 1)
  }

  /** `FirstAltFrom` reports the first admissible alternative from `from` on, and none exactly when there is none. */
  lemma {:induction false} FirstAltFromSpec(s: string, i: nat, keys: seq<string>, mustAdvance: bool, from: nat)
    requires from <= |keys|
    decreases |keys| - from
    ensures var r := FirstAltFrom(s, i, keys, mustAdvance, from);
            && (r.Some? ==>
                  && Admissible(s, i, keys[r.value], mustAdvance)
                  && forall j {:trigger Admissible(s, i, keys[j], mustAdvance)} :: from <= j < r.value ==> !Admissible(s, i, keys[j], mustAdvance))
            && (r.None? <==> forall j {:trigger Admissible(s, i, keys[j], mustAdvance)} :: from <= j < |keys| ==> !Admissible(s, i, keys[j], mustAdvance))
  {
    if from < |keys| && !Admissible(s, i, keys[from], mustAdvance) {
      FirstAltFromSpec(s, i, keys, mustAdvance, from + 1);
    }
  }

  /**
   * `FirstAltMatch` reports the first alternative, in declaration order, that
   * the engine may report at `i`, and reports none exactly when no
   * alternative is admissible there.
   */
  lemma FirstAltMatchSpec(s: string, i: nat, keys: seq<string>, mustAdvance: bool)
    ensures var r := FirstAltMatch(s, i, keys, mustAdvance);
            && (r.Some? ==>
                  && Admissible(s, i, keys[r.value], mustAdvance)
                  && forall j {:trigger Admissible(s, i, keys[j], mustAdvance)} :: 0 <= j < r.value ==> !Admissible(s, i, keys[j], mustAdvance))
            && (r.None? <==> forall j {:trigger Admissible(s, i, keys[j], mustAdvance)} :: 0 <= j < |keys| ==> !Admissible(s, i, keys[j], mustAdvance))
  {
    FirstAltFromSpec(s, i, keys, mustAdvance, 0);
  }

  /** No non-empty key matches at the very end of a text. */
  lemma NoMatchAtEnd(s: string, keys: seq<string>)
    requires forall j :: 0 <= j < |keys| ==> |keys[j]| > 0
    ensures !OccursAt(s, |s|, keys)
  {
  }

  /** A word starts at `q`: a word character with no word character just before it. */
  predicate WordStart(s: string, q: int) {
    WordAt(s, q) && !WordAt(s, q - 1)
  }

  /** A phrase that begins with a word character can stand as a whole word only where a word starts. */
  lemma MatchStartsWord(s: string, q: nat, k: string)
    requires |k| > 0 && IsWordChar(k[0])
    requires !WordStart(s, q)
    ensures !WholeWordAt(s, q, k)
  {
    if MatchesAt(s, q, k) {
      assert ToLower(s[q + 0]) == ToLower(k[0]);
      ToLowerKeepsWordChar(s[q]);
      ToLowerKeepsWordChar(k[0]);
    }
  }

  /** A literal occurs where the text holds it verbatim. */
  lemma MatchesSlice(s: string, p: nat, k: string)
    requires p + |k| <= |s| && s[p..p + |k|] == k
    ensures MatchesAt(s, p, k)
  {
    forall j | 0 <= j < |k|
      ensures ToLower(s[p + j]) == ToLower(k[j])
    {
      assert s[p + j] == s[p..p + |k|][j];
    }
  }

  /** A literal does not occur where one of its characters differs from the text even after lower-casing. */
  lemma MismatchAt(s: string, p: nat, k: string, m: nat)
    requires m < |k| && p + m < |s| && ToLower(s[p + m]) != ToLower(k[m])
    ensures !MatchesAt(s, p, k)
  {
  }

  /**
   * Inside a text made only of word characters a non-empty phrase can stand
   * as a whole word only if it spans the whole text.
   */
  lemma WholeWordInWord(w: string, p: nat, k: string)
    requires forall i :: 0 <= i < |w| ==> IsWordChar(w[i])
    requires |k| > 0 && (|k| != |w| || !MatchesAt(w, 0, k))
    ensures !WholeWordAt(w, p, k)
  {
  }

  /** Whether `\bk\b` matches depends on the text only up to the case of its letters. */
  lemma WholeWordIgnoresCase(s: string, t: string, i: nat, k: string)
    requires SameIgnoringCase(s, t)
    ensures WholeWordAt(s, i, k) <==> WholeWordAt(t, i, k)
  {
    SameIgnoringCaseAt(s, t);
    forall p | 0 <= p < |s|
      ensures WordAt(s, p) == WordAt(t, p)
    {
      ToLowerKeepsWordChar(s[p]);
      ToLowerKeepsWordChar(t[p]);
    }
    assert Boundary(s, i) == Boundary(t, i);
    assert Boundary(s, i + |k|) == Boundary(t, i + |k|);
  }

  /** The alternative chosen at `i` depends on the text only up to case. */
  lemma FirstAltMatchIgnoresCase(s: string, t: string, i: nat, keys: seq<string>, mustAdvance: bool)
    requires SameIgnoringCase(s, t)
    ensures FirstAltMatch(s, i, keys, mustAdvance) == FirstAltMatch(t, i, keys, mustAdvance)
  {
    FirstAltFromSpec(s, i, keys, mustAdvance, 0);
    FirstAltFromSpec(t, i, keys, mustAdvance, 0);
    forall j | 0 <= j < |keys|
      ensures Admissible(s, i, keys[j], mustAdvance) == Admissible(t, i, keys[j], mustAdvance)
    {
      WholeWordIgnoresCase(s, t, i, keys[j]);
    }
  }
}
