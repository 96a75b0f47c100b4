/**
 * Stage two of the normaliser, `enhance_medical_terminology`: after the
 * abbreviations are expanded, a term dict is chosen by medical context and
 * every whole-word, case-insensitive occurrence of one of its phrases is
 * replaced, in one left-to-right pass, by the standard term stored for the
 * lower-cased occurrence.
 */
module Terminology {
  import opened Ascii
  import opened Wrappers
  import opened Tables
  import opened WordMatch
  import opened Rewrite
  import opened Abbreviations

  /** The term document: a dict from context name to that context's term dict. */
  type Document = seq<(string, Table)>

  /** `DEFAULT_MEDICAL_TERMS`, written to disk when no document exists and used when loading fails. */
  const DefaultMedicalTerms: Document := [
    ("general", GeneralTerms),
    ("cardiology", CardiologyTerms),
    ("neurology", NeurologyTerms),
    ("orthopedics", OrthopedicsTerms),
    ("pediatrics", PediatricsTerms),
    ("oncology", OncologyTerms)
  ]

  const GeneralTerms: Table := [
    ("heart attack", "myocardial infarction"),
    ("stroke", "cerebrovascular accident"),
    ("high blood pressure", "hypertension"),
    ("water pill", "diuretic"),
    ("blood thinner", "anticoagulant"),
    ("stomach flu", "gastroenteritis"),
    ("kidney stones", "nephrolithiasis"),
    ("pink eye", "conjunctivitis"),
    ("heartburn", "gastroesophageal reflux disease"),
    ("sugar", "glucose")
  ]

  const CardiologyTerms: Table := [
    ("heart attack", "myocardial infarction"),
    ("chest pain", "angina pectoris"),
    ("irregular heartbeat", "arrhythmia"),
    ("heart failure", "congestive heart failure"),
    ("heart murmur", "cardiac murmur"),
    ("high blood pressure", "hypertension"),
    ("leaky valve", "valvular regurgitation"),
    ("narrowed arteries", "atherosclerosis"),
    ("fluid around heart", "pericardial effusion")
  ]

  const NeurologyTerms: Table := [
    ("stroke", "cerebrovascular accident"),
    ("seizure", "epileptic seizure"),
    ("migraine", "migraine headache"),
    ("pinched nerve", "nerve compression"),
    ("concussion", "mild traumatic brain injury"),
    ("memory loss", "amnesia"),
    ("dizziness", "vertigo"),
    ("tingling", "paresthesia"),
    ("tremors", "tremor disorder")
  ]

  const OrthopedicsTerms: Table := [
    ("broken bone", "fracture"),
    ("slipped disc", "herniated disc"),
    ("joint pain", "arthralgia"),
    ("bone loss", "osteoporosis"),
    ("joint inflammation", "arthritis"),
    ("knee cap", "patella"),
    ("shoulder blade", "scapula"),
    ("hip socket", "acetabulum")
  ]

  const PediatricsTerms: Table := [
    ("chicken pox", "varicella"),
    ("ear infection", "otitis media"),
    ("pink eye", "conjunctivitis"),
    ("strep throat", "streptococcal pharyngitis"),
    ("hand, foot and mouth", "hand-foot-and-mouth disease"),
    ("diaper rash", "diaper dermatitis"),
    ("growth chart", "growth curve")
  ]

  const OncologyTerms: Table := [
    ("cancer spread", "metastasis"),
    ("cancer cells", "malignant cells"),
    ("cancer doctor", "oncologist"),
    ("scan", "imaging study"),
    ("tumor removal", "tumor resection"),
    ("chemo", "chemotherapy"),
    ("radiation", "radiation therapy"),
    ("targeted therapy", "precision medicine")
  ]

  /**
   * `all_terms.get(context, all_terms.get("general", {}))`: the dict stored
   * for `context` when the document has that key, even if the dict is empty;
   * otherwise the "general" dict; otherwise an empty dict.
   */
  function SelectTable(doc: Document, context: string): (r: Table)
    ensures HasKey(doc, context) ==> StoredUnder(doc, context, r)
    ensures !HasKey(doc, context) && HasKey(doc, "general") ==> StoredUnder(doc, "general", r)
    ensures !HasKey(doc, context) && !HasKey(doc, "general") ==> r == []
  {
    Get(doc, context).GetOr(Get(doc, "general").GetOr([]))
  }

  /**
   * `load_medical_terms(context)`, given the outcome of reading the term
   * document: `Some(doc)` when it was read and parsed, `None` when anything
   * on the way raised. On failure the same selection is made in the
   * built-in defaults.
   */
  function LoadTerms(loaded: Option<Document>, context: string): Table {
    SelectTable(loaded.GetOr(DefaultMedicalTerms), context)
  }

  /** The state of the term document on disk before a call. */
  datatype TermsFile = Missing | Unreadable | Stored(doc: Document)

  /**
   * `initialize_medical_terms` followed by reading the document: a missing
   * document is first written from the defaults and then read back; an
   * unreadable or unparsable one makes loading fail.
   */
  function ReadTermsFile(f: TermsFile): Option<Document> {
    match f
    case Missing => Some(DefaultMedicalTerms)
    case Unreadable => None
    case Stored(doc) => Some(doc)
  }

  /**
   * The term pass: with an empty dict the text is returned as it is;
   * otherwise one `re.sub` with the alternation of all keys in dict order.
   */
  function SubstituteTerms(s: string, terms: Table): string {
    if |terms| == 0 then s else SubstituteAll(s, Keys(terms), Standardise(terms))
  }

  /** The body of `enhance_medical_terminology` once the term dict is chosen: expand, then standardise. */
  function EnhanceWithTerms(text: string, terms: Table): string {
    SubstituteTerms(ExpandAbbreviations(text), terms)
  }

  /** `enhance_medical_terminology(text, context)`. */
  function Enhance(text: string, context: string, loaded: Option<Document>): string {
    EnhanceWithTerms(text, LoadTerms(loaded, context))
  }

  /** A term dict as the defaults write it: word-phrase keys, all lower case, none repeated. */
  predicate WellFormedTerms(t: Table) {
    && DistinctKeys(t)
    && forall i :: 0 <= i < |t| ==> IsWordPhrase(t[i].0) && Lower(t[i].0) == t[i].0
  }

  /** A dict whose keys are distinct, lower-case word phrases is well formed. */
  lemma LowerCasePhrasesWellFormed(t: Table)
    requires DistinctKeys(t)
    requires forall i :: 0 <= i < |t| ==> IsWordPhrase(t[i].0) && IsLowerCase(t[i].0)
    ensures WellFormedTerms(t)
  {
    forall i | 0 <= i < |t|
      ensures Lower(t[i].0) == t[i].0
    {
      LowerKeepsLowerCase(t[i].0);
    }
  }

  /** Every dict of the built-in defaults is well formed. */
  lemma DefaultTermsWellFormed(i: nat)
    requires i < |DefaultMedicalTerms|
    ensures WellFormedTerms(DefaultMedicalTerms[i].1)
  {
    var t := DefaultMedicalTerms[i].1;
    if i == 0 {
      GeneralTermsDistinct();
      GeneralTermsLowerPhrases();
    } else if i == 1 {
      CardiologyTermsDistinct();
      CardiologyTermsLowerPhrases();
    } else if i == 2 {
      NeurologyTermsDistinct();
      NeurologyTermsLowerPhrases();
    } else if i == 3 {
      OrthopedicsTermsDistinct();
      OrthopedicsTermsLowerPhrases();
    } else if i == 4 {
      PediatricsTermsDistinct();
      PediatricsTermsLowerPhrases();
    } else {
      OncologyTermsDistinct();
      OncologyTermsLowerPhrases();
    }
    LowerCasePhrasesWellFormed(t);
  }

  /** The built-in "general" dict names each phrase once. */
  lemma GeneralTermsDistinct()
    ensures DistinctKeys(GeneralTerms)
  {
  }

  /** The keys of the built-in "general" dict are lower-case word phrases. */
  lemma GeneralTermsLowerPhrases()
    ensures forall k :: 0 <= k < |GeneralTerms| ==> IsWordPhrase(GeneralTerms[k].0) && IsLowerCase(GeneralTerms[k].0)
  {
  }

  /** The built-in "cardiology" dict names each phrase once. */
  lemma CardiologyTermsDistinct()
    ensures DistinctKeys(CardiologyTerms)
  {
  }

  /** The keys of the built-in "cardiology" dict are lower-case word phrases. */
  lemma CardiologyTermsLowerPhrases()
    ensures forall k :: 0 <= k < |CardiologyTerms| ==> IsWordPhrase(CardiologyTerms[k].0) && IsLowerCase(CardiologyTerms[k].0)
  {
  }

  /** The built-in "neurology" dict names each phrase once. */
  lemma NeurologyTermsDistinct()
    ensures DistinctKeys(NeurologyTerms)
  {
  }

  /** The keys of the built-in "neurology" dict are lower-case word phrases. */
  lemma NeurologyTermsLowerPhrases()
    ensures forall k :: 0 <= k < |NeurologyTerms| ==> IsWordPhrase(NeurologyTerms[k].0) && IsLowerCase(NeurologyTerms[k].0)
  {
  }

  /** The built-in "orthopedics" dict names each phrase once. */
  lemma OrthopedicsTermsDistinct()
    ensures DistinctKeys(OrthopedicsTerms)
  {
  }

  /** The keys of the built-in "orthopedics" dict are lower-case word phrases. */
  lemma OrthopedicsTermsLowerPhrases()
    ensures forall k :: 0 <= k < |OrthopedicsTerms| ==> IsWordPhrase(OrthopedicsTerms[k].0) && IsLowerCase(OrthopedicsTerms[k].0)
  {
  }

  /** The built-in "pediatrics" dict names each phrase once. */
  lemma PediatricsTermsDistinct()
    ensures DistinctKeys(PediatricsTerms)
  {
  }

  /** The keys of the built-in "pediatrics" dict are lower-case word phrases. */
  lemma PediatricsTermsLowerPhrases()
    ensures forall k :: 0 <= k < |PediatricsTerms| ==> IsWordPhrase(PediatricsTerms[k].0) && IsLowerCase(PediatricsTerms[k].0)
  {
  }

  /** The built-in "oncology" dict names each phrase once. */
  lemma OncologyTermsDistinct()
    ensures DistinctKeys(OncologyTerms)
  {
  }

  /** The keys of the built-in "oncology" dict are lower-case word phrases. */
  lemma OncologyTermsLowerPhrases()
    ensures forall k :: 0 <= k < |OncologyTerms| ==> IsWordPhrase(OncologyTerms[k].0) && IsLowerCase(OncologyTerms[k].0)
  {
  }

  /** The built-in defaults name each context once. */
  lemma DefaultContextsDistinct()
    ensures DistinctKeys(DefaultMedicalTerms)
  {
  }

  /** In the built-in defaults, each context name selects the dict stored under it. */
  lemma DefaultContextSelected(i: nat)
    requires i < |DefaultMedicalTerms|
    ensures SelectTable(DefaultMedicalTerms, DefaultMedicalTerms[i].0) == DefaultMedicalTerms[i].1
  {
    DefaultContextsDistinct();
    GetItem(DefaultMedicalTerms, i);
  }

  /** In the built-in defaults, a context they do not name falls back to the "general" dict. */
  lemma UnknownContextSelectsGeneral(context: string)
    requires forall i :: 0 <= i < |DefaultMedicalTerms| ==> DefaultMedicalTerms[i].0 != context
    ensures SelectTable(DefaultMedicalTerms, context) == GeneralTerms
  {
    DefaultContextsDistinct();
    GetItem(DefaultMedicalTerms, 0);
  }

  /**
   * A missing document is first written from the defaults, so loading then
   * selects exactly what a failed load selects.
   */
  lemma MissingDocumentActsAsDefaults(context: string)
    ensures LoadTerms(ReadTermsFile(Missing), context) == LoadTerms(ReadTermsFile(Unreadable), context)
    ensures LoadTerms(ReadTermsFile(Unreadable), context) == SelectTable(DefaultMedicalTerms, context)
  {
  }

  /**
   * A document that stores an empty dict for the context is taken at its
   * word: there is no fallback to "general", and enhancing then only
   * expands abbreviations.
   */
  lemma EmptyContextDictIsKept(doc: Document, context: string, text: string)
    requires DistinctKeys(doc)
    requires (context, []) in doc
    ensures LoadTerms(Some(doc), context) == []
    ensures Enhance(text, context, Some(doc)) == ExpandAbbreviations(text)
  {
    var i :| 0 <= i < |doc| && doc[i] == (context, []);
    GetItem(doc, i);
  }

  /** No key of the dict stands as a whole word anywhere in `s`. */
  predicate NoTermIn(s: string, terms: Table) {
    forall q, j :: 0 <= q <= |s| && 0 <= j < |terms| ==> !WholeWordAt(s, q, terms[j].0)
  }

  /** No key of the dict stands as a whole word in `s` anywhere but at `p`. */
  predicate NoTermElsewhere(s: string, terms: Table, p: nat) {
    forall q, j :: 0 <= q <= |s| && q != p && 0 <= j < |terms| ==> !WholeWordAt(s, q, terms[j].0)
  }

  /** At `p`, entry `a` is the first entry of the dict whose key stands as a whole word. */
  predicate FirstTermAt(s: string, terms: Table, p: nat, a: nat) {
    && a < |terms|
    && WholeWordAt(s, p, terms[a].0)
    && forall b :: 0 <= b < a ==> !WholeWordAt(s, p, terms[b].0)
  }

  /** A text in which no key of the dict stands as a whole word comes back unchanged from the term pass. */
  lemma SubstituteTermsUnchanged(s: string, terms: Table)
    requires NoTermIn(s, terms)
    ensures SubstituteTerms(s, terms) == s
  {
    if |terms| > 0 {
      ScanUnchanged(s, Keys(terms), Standardise(terms), 0, false);
      assert s[0..] == s;
    }
  }

  /**
   * A text that is, up to case, one of the word-phrase keys of a pass is
   * replaced as a whole, provided no earlier key already matches at its start.
   */
  lemma StandalonePhraseReplaced(w: string, keys: seq<string>, rule: Rule, i: nat)
    requires i < |keys| && IsWordPhrase(keys[i]) && SameIgnoringCase(w, keys[i])
    requires forall j :: 0 <= j < i ==> !WholeWordAt(w, 0, keys[j])
    requires forall j :: 0 <= j < |keys| ==> |keys[j]| > 0
    ensures SubstituteAll(w, keys, rule) == Replacement(rule, w)
  {
    StandaloneWordPhrase(w, keys[i]);
    ScanLeftmostFirst(w, keys, rule, 0, 0, i);
    assert w[0..|keys[i]|] == w && w[0..0] == [];
    NoMatchAtEnd(w, keys);
    ScanUnchanged(w, keys, rule, |w|, false);
  }

  /**
   * A phrase of a well-formed dict, written in any case and standing alone,
   * becomes that phrase's standard term, unless an earlier key of the dict
   * already matches there.
   */
  lemma StandaloneTerm(w: string, terms: Table, i: nat)
    requires WellFormedTerms(terms)
    requires i < |terms| && SameIgnoringCase(w, terms[i].0)
    requires forall j :: 0 <= j < i ==> !WholeWordAt(w, 0, terms[j].0)
    ensures SubstituteTerms(w, terms) == terms[i].1
  {
    var keys := Keys(terms);
    assert forall j :: 0 <= j < |keys| ==> |keys[j]| > 0 by {
      forall j | 0 <= j < |keys| ensures |keys[j]| > 0 {
        assert IsWordPhrase(terms[j].0);
      }
    }
    StandalonePhraseReplaced(w, keys, Standardise(terms), i);
    assert Lower(w) == terms[i].0;
    GetItem(terms, i);
  }

  /**
   * The term pass on a text where the dict's keys match as whole words only
   * at `p`, and the first of them in dict order is entry `a`: that hit is
   * replaced by the value stored for its lower-cased text (kept when there is
   * none), and the text around it is kept.
   */
  lemma SubstituteTermsOneHit(s: string, terms: Table, p: nat, a: nat)
    requires FirstTermAt(s, terms, p, a) && |terms[a].0| > 0
    requires NoTermElsewhere(s, terms, p)
    ensures p + |terms[a].0| <= |s|
    ensures SubstituteTerms(s, terms)
            == s[..p] + Replacement(Standardise(terms), s[p..p + |terms[a].0|]) + s[p + |terms[a].0|..]
  {
    var keys, rule, e := Keys(terms), Standardise(terms), p + |terms[a].0|;
    ScanLeftmostFirst(s, keys, rule, 0, p, a);
    ScanUnchanged(s, keys, rule, e, false);
    assert s[0..p] == s[..p];
  }

  /**
   * The single hit `pre + k + post` of a lower-case key `k` that is the first
   * entry with that key becomes `pre + v + post`, where `v` is the entry's
   * standard term.
   */
  lemma SubstituteTermsSplice(s: string, pre: string, post: string, terms: Table, a: nat, r: string)
    requires FirstTermAt(s, terms, |pre|, a) && NoTermElsewhere(s, terms, |pre|)
    requires |terms[a].0| > 0 && Lower(terms[a].0) == terms[a].0
    requires forall b :: 0 <= b < a ==> terms[b].0 != terms[a].0
    requires s == pre + terms[a].0 + post && r == pre + terms[a].1 + post
    ensures SubstituteTerms(s, terms) == r
  {
    var p, k := |pre|, terms[a].0;
    SubstituteTermsOneHit(s, terms, p, a);
    assert s[..p] == pre && s[p..p + |k|] == k && s[p + |k|..] == post;
    GetFirst(terms, a);
  }

  /** A text without letters, digits or `_` comes back unchanged from both stages, whatever the dict. */
  lemma EnhanceWithoutWordChars(text: string, terms: Table)
    requires forall i :: 0 <= i < |text| ==> !IsWordChar(text[i])
    ensures EnhanceWithTerms(text, terms) == text
  {
    ExpandWithoutWordChars(text, AbbreviationTable);
    if |terms| > 0 {
      SubstituteWithoutWordChars(text, Keys(terms), Standardise(terms));
    }
  }

  /** Empty input gives empty output, whatever the context and whatever the document holds. */
  lemma EmptyTextStaysEmpty(context: string, loaded: Option<Document>)
    ensures Enhance("", context, loaded) == ""
  {
    EnhanceWithoutWordChars("", LoadTerms(loaded, context));
  }

  /** Changing the case of letters in the input changes the result at most in the case of its letters, whatever the dict. */
  lemma EnhanceIgnoresCase(s: string, t: string, terms: Table)
    requires SameIgnoringCase(s, t)
    ensures SameIgnoringCase(EnhanceWithTerms(s, terms), EnhanceWithTerms(t, terms))
  {
    ExpandAllIgnoresCase(s, t, AbbreviationTable);
    if |terms| > 0 {
      ScanIgnoresCase(ExpandAbbreviations(s), ExpandAbbreviations(t), Keys(terms), Standardise(terms), 0, false);
    }
  }
}
