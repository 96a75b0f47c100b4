/**
 * One call of `re.sub(pattern, repl, text, flags=re.IGNORECASE)` where
 * `pattern` is `\b(k1|k2|...)\b` over literal keys: a single left-to-right
 * pass that replaces each match and resumes scanning the INPUT right after
 * it, so replacement text is never scanned again.
 *
 * The pass follows Python 3.7+ rules for empty matches (possible only with an
 * empty key): an empty match may directly follow a non-empty one, but after
 * an empty match at index `i` the next match must not be empty at `i`.
 */
module Rewrite {
  import opened Ascii
  import opened Wrappers
  import opened Tables
  import opened WordMatch

  /**
   * What a match is replaced by: a fixed expansion (the abbreviation stage),
   * or the value the term table stores for the lower-cased matched text,
   * keeping the matched text when that lower-cased form is not a key
   * (`medical_terms.get(term, match.group(0))`).
   */
  datatype Rule = Expand(expansion: string) | Standardise(terms: Table)

  function Replacement(rule: Rule, hit: string): string {
    match rule
    case Expand(v) => v
    case Standardise(terms) =>
      match Get(terms, Lower(hit))
      case Some(v) => v
      case None => hit
  }

  /**
   * The output of the pass over `s[i..]`. `mustAdvance` records that the
   * previous match was empty and ended at `i`.
   */
  function Scan(s: string, keys: seq<string>, rule: Rule, i: nat, mustAdvance: bool): string
    requires i <= |s|
    decreases |s| - i, if mustAdvance then 0 else 1, 1
  {
    Emit(s, keys, rule, i, mustAdvance, FirstAltMatch(s, i, keys, mustAdvance))
  }

  /** The output of the pass from `i` on, given the alternative `m` found there. */
  function Emit(s: string, keys: seq<string>, rule: Rule, i: nat, mustAdvance: bool, m: Option<nat>): string
    requires i <= |s|
    requires m == FirstAltMatch(s, i, keys, mustAdvance)
    decreases |s| - i, if mustAdvance then 0 else 1, 0
  {
    match m
    case Some(a) =>
      var k := keys[a];
      Replacement(rule, s[i..i + |k|])
      + (if |k| == 0 then Scan(s, keys, rule, i, true) else Scan(s, keys, rule, i + |k|, false))
    case None =>
      if i == |s| then [] else [s[i]] + Scan(s, keys, rule, i + 1, false)
  }

  /** `re.sub` over the whole text. */
  function SubstituteAll(s: string, keys: seq<string>, rule: Rule): string {
    Scan(s, keys, rule, 0, false)
  }

  /** A step of the pass at a match of an empty key: the pass stays at `i` and must advance. */
  lemma ScanAtEmptyMatch(s: string, keys: seq<string>, rule: Rule, i: nat, mustAdvance: bool, a: nat)
    requires i <= |s|
    requires FirstAltMatch(s, i, keys, mustAdvance) == Some(a)
    requires a < |keys| && |keys[a]| == 0
    ensures Scan(s, keys, rule, i, mustAdvance) == Replacement(rule, []) + Scan(s, keys, rule, i, true)
  {
    assert s[i..i + |keys[a]|] == [];
  }

  /** A step of the pass at a non-empty match. */
  lemma ScanAtWordMatch(s: string, keys: seq<string>, rule: Rule, i: nat, mustAdvance: bool, a: nat)
    requires i <= |s|
    requires FirstAltMatch(s, i, keys, mustAdvance) == Some(a)
    requires a < |keys| && 0 < |keys[a]| && i + |keys[a]| <= |s|
    ensures Scan(s, keys, rule, i, mustAdvance)
            == Replacement(rule, s[i..i + |keys[a]|]) + Scan(s, keys, rule, i + |keys[a]|, false)
  {
  }

  /** One step of the pass where nothing matches. */
  lemma ScanAtNoMatch(s: string, keys: seq<string>, rule: Rule, i: nat, mustAdvance: bool)
    requires i < |s|
    requires FirstAltMatch(s, i, keys, mustAdvance).None?
    ensures Scan(s, keys, rule, i, mustAdvance) == [s[i]] + Scan(s, keys, rule, i + 1, false)
  {
  }

  /** Putting `s[i]` back in front of `s[i + 1..j]`. */
  lemma ConsSlice(s: string, i: nat, j: nat, tail: string)
    requires i < j <= |s|
    ensures [s[i]] + (s[i + 1..j] + tail) == s[i..j] + tail
  {
    var l, r := [s[i]] + (s[i + 1..j] + tail), s[i..j] + tail;
    forall q | 0 <= q < |l|
      ensures l[q] == r[q]
    {
      if q == 0 {
      } else if q < j - i {
        assert l[q] == s[i + 1..j][q - 1];
      } else {
        assert l[q] == tail[q - (j - i)];
      }
    }
  }

  /** Text up to the next match is copied unchanged. */
  lemma {:induction false} ScanSkipsGap(s: string, keys: seq<string>, rule: Rule, i: nat, j: nat, mustAdvance: bool)
    requires i <= j <= |s|
    requires forall p :: i <= p < j ==> !OccursAt(s, p, keys)
    ensures Scan(s, keys, rule, i, mustAdvance) == s[i..j] + Scan(s, keys, rule, j, mustAdvance && i == j)
    decreases j - i
  {
    if i < j {
      assert !OccursAt(s, i, keys);
      FirstAltMatchSpec(s, i, keys, mustAdvance);
      ScanAtNoMatch(s, keys, rule, i, mustAdvance);
      ScanSkipsGap(s, keys, rule, i + 1, j, false);
      ConsSlice(s, i, j, Scan(s, keys, rule, j, false));
    }
  }

  /** A text in which no key occurs as a whole word comes back unchanged. */
  lemma ScanUnchanged(s: string, keys: seq<string>, rule: Rule, i: nat, mustAdvance: bool)
    requires i <= |s|
    requires forall p :: i <= p <= |s| ==> !OccursAt(s, p, keys)
    ensures Scan(s, keys, rule, i, mustAdvance) == s[i..]
  {
    ScanSkipsGap(s, keys, rule, i, |s|, mustAdvance);
    assert !OccursAt(s, |s|, keys);
    FirstAltMatchSpec(s, |s|, keys, mustAdvance && i == |s|);
  }

  /** Without a word character there is no `\b` anywhere, so nothing matches and the text comes back unchanged. */
  lemma SubstituteWithoutWordChars(s: string, keys: seq<string>, rule: Rule)
    requires forall i :: 0 <= i < |s| ==> !IsWordChar(s[i])
    ensures SubstituteAll(s, keys, rule) == s
  {
    forall p | 0 <= p <= |s|
      ensures !OccursAt(s, p, keys)
    {
      assert !Boundary(s, p);
    }
    ScanUnchanged(s, keys, rule, 0, false);
    assert s[0..] == s;
  }

  /**
   * The leftmost match decides the next step: the text before it is copied,
   * the FIRST key in declaration order that matches there (not the longest)
   * is replaced, and scanning resumes in the input right after the matched
   * text.
   */
  lemma ScanLeftmostFirst(s: string, keys: seq<string>, rule: Rule, i: nat, p: nat, a: nat)
    requires i <= p <= |s|
    requires forall q :: i <= q < p ==> !OccursAt(s, q, keys)
    requires a < |keys| && |keys[a]| > 0 && WholeWordAt(s, p, keys[a])
    requires forall b :: 0 <= b < a ==> !WholeWordAt(s, p, keys[b])
    ensures p + |keys[a]| <= |s|
    ensures Scan(s, keys, rule, i, false)
            == s[i..p] + Replacement(rule, s[p..p + |keys[a]|]) + Scan(s, keys, rule, p + |keys[a]|, false)
  {
    var k := keys[a];
    FirstWholeWordIsMatch(s, p, keys, a);
    ScanAtWordMatch(s, keys, rule, p, false, a);
    ScanSkipsGap(s, keys, rule, i, p, false);
    ConcatAssoc(s[i..p], Replacement(rule, s[p..p + |k|]), Scan(s, keys, rule, p + |k|, false));
  }

  /** `ScanLeftmostFirst` with the replacement of the hit already known to be `v`. */
  lemma ScanHitBecomes(s: string, keys: seq<string>, rule: Rule, i: nat, p: nat, a: nat, e: nat, v: string)
    requires i <= p <= |s|
    requires forall q :: i <= q < p ==> !OccursAt(s, q, keys)
    requires a < |keys| && |keys[a]| > 0 && WholeWordAt(s, p, keys[a])
    requires forall b :: 0 <= b < a ==> !WholeWordAt(s, p, keys[b])
    requires e == p + |keys[a]| && e <= |s| && Replacement(rule, s[p..e]) == v
    ensures Scan(s, keys, rule, i, false) == s[i..p] + v + Scan(s, keys, rule, e, false)
  {
    ScanLeftmostFirst(s, keys, rule, i, p, a);
  }

  /**
   * A pass with exactly two hits, at `p1` and at `p2` after it, where no key
   * occurs before, between or after them: each hit is replaced, by the first
   * key matching there, and the text around them is kept. Several hits are
   * replaced in one pass, left to right, without scanning a replacement again.
   */
  lemma SubstituteTwoHits(s: string, keys: seq<string>, rule: Rule, p1: nat, a1: nat, v1: string, p2: nat, a2: nat, v2: string)
    requires a1 < |keys| && |keys[a1]| > 0 && WholeWordAt(s, p1, keys[a1])
    requires forall b :: 0 <= b < a1 ==> !WholeWordAt(s, p1, keys[b])
    requires a2 < |keys| && |keys[a2]| > 0 && WholeWordAt(s, p2, keys[a2])
    requires forall b :: 0 <= b < a2 ==> !WholeWordAt(s, p2, keys[b])
    requires p1 + |keys[a1]| <= p2
    requires forall q :: 0 <= q < p1 ==> !OccursAt(s, q, keys)
    requires forall q :: p1 + |keys[a1]| <= q < p2 ==> !OccursAt(s, q, keys)
    requires forall q :: p2 + |keys[a2]| <= q <= |s| ==> !OccursAt(s, q, keys)
    requires Replacement(rule, s[p1..p1 + |keys[a1]|]) == v1
    requires Replacement(rule, s[p2..p2 + |keys[a2]|]) == v2
    ensures SubstituteAll(s, keys, rule)
            == s[..p1] + v1 + s[p1 + |keys[a1]|..p2] + v2 + s[p2 + |keys[a2]|..]
  {
    assert p1 + |keys[a1]| <= |s| && p2 + |keys[a2]| <= |s|;
    var gap1, gap2, tail := s[0..p1], s[p1 + |keys[a1]|..p2], s[p2 + |keys[a2]|..];
    var rest := Scan(s, keys, rule, p1 + |keys[a1]|, false);
    assert Scan(s, keys, rule, 0, false) == gap1 + v1 + rest by {
      ScanHitBecomes(s, keys, rule, 0, p1, a1, p1 + |keys[a1]|, v1);
    }
    assert rest == gap2 + v2 + tail by {
      ScanLastHit(s, keys, rule, p1 + |keys[a1]|, p2, a2, v2);
    }
    assert s[..p1] == gap1;
    ConcatAssoc(gap1 + v1, gap2 + v2, tail);
    ConcatAssoc(gap1 + v1, gap2, v2);
  }

  /** From `i`, a pass whose only hit is at `p` replaces it and keeps the text before and after it. */
  lemma ScanLastHit(s: string, keys: seq<string>, rule: Rule, i: nat, p: nat, a: nat, v: string)
    requires i <= p
    requires a < |keys| && |keys[a]| > 0 && WholeWordAt(s, p, keys[a])
    requires forall b :: 0 <= b < a ==> !WholeWordAt(s, p, keys[b])
    requires forall q :: i <= q < p ==> !OccursAt(s, q, keys)
    requires forall q :: p + |keys[a]| <= q <= |s| ==> !OccursAt(s, q, keys)
    requires Replacement(rule, s[p..p + |keys[a]|]) == v
    ensures Scan(s, keys, rule, i, false) == s[i..p] + v + s[p + |keys[a]|..]
  {
    assert p + |keys[a]| <= |s|;
    var rest := Scan(s, keys, rule, p + |keys[a]|, false);
    assert Scan(s, keys, rule, i, false) == s[i..p] + v + rest by {
      ScanHitBecomes(s, keys, rule, i, p, a, p + |keys[a]|, v);
    }
    assert rest == s[p + |keys[a]|..] by {
      ScanUnchanged(s, keys, rule, p + |keys[a]|, false);
    }
  }

  /** The first key that matches as a whole word is the alternative reported, unless the pass must advance. */
  lemma FirstWholeWordIsMatch(s: string, p: nat, keys: seq<string>, a: nat)
    requires a < |keys| && WholeWordAt(s, p, keys[a])
    requires forall b :: 0 <= b < a ==> !WholeWordAt(s, p, keys[b])
    ensures FirstAltMatch(s, p, keys, false) == Some(a)
  {
    FirstAltMatchSpec(s, p, keys, false);
    assert Admissible(s, p, keys[a], false);
  }

  /** Concatenation is associative. */
  lemma ConcatAssoc(a: string, b: string, c: string)
    ensures a + (b + c) == (a + b) + c
  {
    forall q | 0 <= q < |a| + |b| + |c|
      ensures (a + (b + c))[q] == ((a + b) + c)[q]
    {
      if q < |a| {
      } else if q < |a| + |b| {
      } else {
      }
    }
  }

  /** Concatenation keeps case-insensitive equality. */
  lemma SameIgnoringCaseConcat(a: string, b: string, c: string, d: string)
    requires SameIgnoringCase(a, b) && SameIgnoringCase(c, d)
    ensures SameIgnoringCase(a + c, b + d)
  {
    LowerConcat(a, c);
    LowerConcat(b, d);
  }

  /** Slices of texts that differ only in case differ only in case. */
  lemma SliceIgnoresCase(s: string, t: string, i: nat, j: nat)
    requires SameIgnoringCase(s, t)
    requires i <= j <= |s|
    ensures SameIgnoringCase(s[i..j], t[i..j])
  {
    SameIgnoringCaseAt(s, t);
    forall q | 0 <= q < j - i ensures ToLower(s[i..j][q]) == ToLower(t[i..j][q]) {
      assert s[i..j][q] == s[i + q] && t[i..j][q] == t[i + q];
    }
    SameIgnoringCaseAt(s[i..j], t[i..j]);
  }

  /** Matched texts that differ only in case are replaced by texts that differ only in case. */
  lemma ReplacementIgnoresCase(rule: Rule, h1: string, h2: string)
    requires SameIgnoringCase(h1, h2)
    ensures SameIgnoringCase(Replacement(rule, h1), Replacement(rule, h2))
  {
  }

  /**
   * Changing the case of letters in the input changes the output at most in
   * the case of its letters: every case variant of a key is found at the same
   * places and replaced alike.
   */
  lemma {:induction false} ScanIgnoresCase(s: string, t: string, keys: seq<string>, rule: Rule, i: nat, mustAdvance: bool)
    requires SameIgnoringCase(s, t)
    requires i <= |s|
    ensures SameIgnoringCase(Scan(s, keys, rule, i, mustAdvance), Scan(t, keys, rule, i, mustAdvance))
    decreases |s| - i, if mustAdvance then 0 else 1, 1
  {
    FirstAltMatchIgnoresCase(s, t, i, keys, mustAdvance);
    var m := FirstAltMatch(s, i, keys, mustAdvance);
    if m.Some? {
      if |keys[m.value]| == 0 {
        EmptyMatchStepIgnoresCase(s, t, keys, rule, i, mustAdvance, m.value);
      } else {
        WordMatchStepIgnoresCase(s, t, keys, rule, i, mustAdvance, m.value);
      }
    } else if i < |s| {
      NoMatchStepIgnoresCase(s, t, keys, rule, i, mustAdvance);
    }
  }

  /** The step of `ScanIgnoresCase` where nothing matches. */
  lemma {:induction false} NoMatchStepIgnoresCase(s: string, t: string, keys: seq<string>, rule: Rule, i: nat, mustAdvance: bool)
    requires SameIgnoringCase(s, t)
    requires i < |s|
    requires FirstAltMatch(s, i, keys, mustAdvance).None?
    requires FirstAltMatch(t, i, keys, mustAdvance).None?
    ensures SameIgnoringCase(Scan(s, keys, rule, i, mustAdvance), Scan(t, keys, rule, i, mustAdvance))
    decreases |s| - i, if mustAdvance then 0 else 1, 0
  {
    ScanIgnoresCase(s, t, keys, rule, i + 1, false);
    SameIgnoringCaseAt(s, t);
    ScanAtNoMatch(s, keys, rule, i, mustAdvance);
    ScanAtNoMatch(t, keys, rule, i, mustAdvance);
    SameIgnoringCaseAt([s[i]], [t[i]]);
    SameIgnoringCaseConcat([s[i]], [t[i]], Scan(s, keys, rule, i + 1, false), Scan(t, keys, rule, i + 1, false));
  }

  /** The step of `ScanIgnoresCase` at a match of an empty key. */
  lemma {:induction false} EmptyMatchStepIgnoresCase(s: string, t: string, keys: seq<string>, rule: Rule, i: nat, mustAdvance: bool, a: nat)
    requires SameIgnoringCase(s, t)
    requires i <= |s|
    requires FirstAltMatch(s, i, keys, mustAdvance) == Some(a)
    requires FirstAltMatch(t, i, keys, mustAdvance) == Some(a)
    requires |keys[a]| == 0
    ensures SameIgnoringCase(Scan(s, keys, rule, i, mustAdvance), Scan(t, keys, rule, i, mustAdvance))
    decreases |s| - i, if mustAdvance then 0 else 1, 0
  {
    ScanAtEmptyMatch(s, keys, rule, i, mustAdvance, a);
    ScanAtEmptyMatch(t, keys, rule, i, mustAdvance, a);
    ScanIgnoresCase(s, t, keys, rule, i, true);
    SameIgnoringCaseConcat(Replacement(rule, []), Replacement(rule, []),
                           Scan(s, keys, rule, i, true), Scan(t, keys, rule, i, true));
  }

  /** The step of `ScanIgnoresCase` at a match of a non-empty key. */
  lemma {:induction false} WordMatchStepIgnoresCase(s: string, t: string, keys: seq<string>, rule: Rule, i: nat, mustAdvance: bool, a: nat)
    requires SameIgnoringCase(s, t)
    requires i <= |s|
    requires FirstAltMatch(s, i, keys, mustAdvance) == Some(a)
    requires FirstAltMatch(t, i, keys, mustAdvance) == Some(a)
    requires |keys[a]| > 0
    ensures SameIgnoringCase(Scan(s, keys, rule, i, mustAdvance), Scan(t, keys, rule, i, mustAdvance))
    decreases |s| - i, if mustAdvance then 0 else 1, 0
  {
    ScanIgnoresCase(s, t, keys, rule, i + |keys[a]|, false);
    JoinWordMatchStep(s, t, keys, rule, i, mustAdvance, a);
  }

  /** Joins the matched part and the rest of the pass for `WordMatchStepIgnoresCase`. */
  lemma JoinWordMatchStep(s: string, t: string, keys: seq<string>, rule: Rule, i: nat, mustAdvance: bool, a: nat)
    requires SameIgnoringCase(s, t)
    requires i <= |s|
    requires FirstAltMatch(s, i, keys, mustAdvance) == Some(a)
    requires FirstAltMatch(t, i, keys, mustAdvance) == Some(a)
    requires a < |keys| && 0 < |keys[a]| && i + |keys[a]| <= |s| == |t|
    requires SameIgnoringCase(Scan(s, keys, rule, i + |keys[a]|, false), Scan(t, keys, rule, i + |keys[a]|, false))
    ensures SameIgnoringCase(Scan(s, keys, rule, i, mustAdvance), Scan(t, keys, rule, i, mustAdvance))
  {
    var j := i + |keys[a]|;
    ScanAtWordMatch(s, keys, rule, i, mustAdvance, a);
    ScanAtWordMatch(t, keys, rule, i, mustAdvance, a);
    SliceIgnoresCase(s, t, i, j);
    ReplacementIgnoresCase(rule, s[i..j], t[i..j]);
    SameIgnoringCaseConcat(Replacement(rule, s[i..j]), Replacement(rule, t[i..j]),
                           Scan(s, keys, rule, j, false), Scan(t, keys, rule, j, false));
  }
}
