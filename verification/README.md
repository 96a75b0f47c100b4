# Medical terminology normaliser — Dafny model

This project models the text normaliser in `medical_terms.py` of a
healthcare translation app. Before a text is sent for translation,
`translate_text` in `app.py` passes it, typed or transcribed, through
`enhance_medical_terminology`. The normaliser has two stages:

1. **Abbreviation expansion** (`expand_medical_abbreviations`). A fixed
   table of 39 abbreviations ("BP", "O2", "CHF", …) is applied one entry at
   a time, in table order. Each entry is one case-insensitive `re.sub` of
   `\bABBR\b` by its expansion.
2. **Terminology standardisation** (`enhance_medical_terminology`). A term
   dict is chosen for the medical context: "general", "cardiology",
   "neurology", "orthopedics", "pediatrics" or "oncology". One
   case-insensitive `re.sub` of `\b(k1|k2|…)\b` replaces each lay phrase by
   the value stored for its lower-cased text.

`load_medical_terms` chooses the dict. It reads the term document and
falls back to the built-in `DEFAULT_MEDICAL_TERMS` when reading fails.

The modules follow that structure:

| module | file | what it holds |
|---|---|---|
| `Wrappers` | `wrappers.dfy` | `Option` |
| `Ascii` | `ascii.dfy` | `\w`, `str.lower`, case-insensitive equality |
| `Tables` | `tables.dfy` | dicts as insertion-ordered item sequences, `dict.get` |
| `WordMatch` | `wordmatch.dfy` | `\b`, literal matching under `re.IGNORECASE`, first-alternative choice |
| `Rewrite` | `rewrite.dfy` | one `re.sub` pass, including Python's empty-match rule |
| `Abbreviations` | `abbreviations.dfy` | the abbreviation table and the fold over it |
| `Terminology` | `terminology.dfy` | the default term document, context selection, the term pass, the whole pipeline |
| `Examples` | `examples.dfy` | concrete inputs and the results the model gives for them |

The regex engine is modelled by what these patterns need, not as a
general regex engine:

- Whole-word literal matches between `\b` anchors.
- Case is ignored by comparing `str.lower` of both sides.
- An alternation reports its FIRST alternative in declaration order that
  matches, not the longest one.
- After a match, scanning resumes in the input right after the matched
  text, so replacement text is never scanned again by the same pass.

Reading the term document is a parameter: `Some(doc)` for a parsed
document, `None` for any failure.

Context selection is `all_terms.get(context, all_terms.get("general", {}))`
(medical_terms.py:105). It falls back to "general" only when the context
key is absent from the document. A context stored with an empty dict is
used as it is, and enhancing then only expands abbreviations
(`Terminology.EmptyContextDictIsKept`).

## Model

| member | source | states |
|---|---|---|
| `Tables.Get` | medical_terms.py:105 | `d.get(key)` is `None` exactly when `key` is not a key; otherwise it is the value of the first item stored under `key` |
| `Tables.GetItem` | medical_terms.py:192-194 | in a dict with distinct keys, looking up an item's key yields that item's value |
| `WordMatch.FirstAltMatchSpec` | medical_terms.py:197 | the alternation of all keys between `\b` anchors reports the first key in declaration order that matches as a whole word, and reports nothing exactly when no key does |
| `WordMatch.WholeWordIgnoresCase` | medical_terms.py:166 | under `re.IGNORECASE`, whether `\bk\b` matches at a position does not depend on the case of the text |
| `Rewrite.ScanSkipsGap` | medical_terms.py:166 | `re.sub` copies the text before the next match unchanged |
| `Rewrite.ScanUnchanged` | medical_terms.py:166 | a text in which no key occurs as a whole word comes back unchanged from `re.sub` |
| `Rewrite.ScanLeftmostFirst` | medical_terms.py:201 | at the leftmost match, the first key in declaration order that matches (not the longest) is replaced, and scanning resumes in the input after the matched text |
| `Rewrite.ScanLastHit` | medical_terms.py:201 | from a position on, a pass whose only hit is at `p` replaces that hit and keeps the text before and after it |
| `Rewrite.SubstituteTwoHits` | medical_terms.py:201 | with two hits and no other occurrence of a key, one pass replaces both, left to right, each by the first key matching at its place, and keeps the text before, between and after them |
| `Rewrite.ScanIgnoresCase` | medical_terms.py:201 | texts that differ only in letter case give results that differ only in letter case |
| `Rewrite.SubstituteWithoutWordChars` | medical_terms.py:166 | a text without word characters has no `\b`, so `re.sub` returns it unchanged |
| `Abbreviations.ExpandAllAppend` | medical_terms.py:164-166 | the loop over the table is a left fold: applying two tables in turn is applying their concatenation |
| `Abbreviations.ExpandAllUnchanged` | medical_terms.py:164-166 | a text in which no abbreviation of the table stands as a whole word is returned unchanged |
| `Abbreviations.ExpandAllUnchangedAfter` | medical_terms.py:164-166 | entries whose keys do not occur in the text produced so far change nothing |
| `Abbreviations.ExpandAbbreviationsUnchanged` | medical_terms.py:112-168 | `expand_medical_abbreviations` returns a text without any whole-word abbreviation unchanged |
| `Abbreviations.ExpandWithoutWordChars` | medical_terms.py:164-166 | a text without word characters passes through every entry unchanged |
| `Abbreviations.ExpandStepOneOccurrence` | medical_terms.py:166 | one entry applied to a text with a single whole-word occurrence splices the expansion in its place and keeps the rest |
| `Abbreviations.StandaloneAbbreviation` | medical_terms.py:166 | an abbreviation written alone, in any letter case, becomes its expansion |
| `Abbreviations.ExpandAllStandalone` | medical_terms.py:164-166 | an abbreviation alone is expanded by its own entry when no earlier entry fires on it and no later key occurs in its expansion |
| `Abbreviations.ExpandAllIgnoresCase` | medical_terms.py:166 | the whole expansion stage commutes with changing letter case, up to case |
| `Abbreviations.O2SatNeverFiresAfterO2` | medical_terms.py:127-128 | after the "O2" entry has run, the "O2 sat" entry never finds a match |
| `Abbreviations.O2SatShadowed` | medical_terms.py:127-128 | in any table where "O2" directly precedes "O2 sat", dropping the "O2 sat" entry changes no result |
| `Abbreviations.O2SatEntryIsDead` | medical_terms.py:122-162 | `expand_medical_abbreviations` gives the same result with the "O2 sat" entry removed |
| `Terminology.SelectTable` | medical_terms.py:105 | the dict stored under the context when the document has that key, even if empty; else the "general" dict; else an empty dict |
| `Terminology.DefaultContextsDistinct` | medical_terms.py:10-74 | the built-in defaults name each context once |
| `Terminology.DefaultContextSelected` | medical_terms.py:109 | in the built-in defaults, each context name selects the dict written under it |
| `Terminology.UnknownContextSelectsGeneral` | medical_terms.py:109 | in the built-in defaults, a context they do not name selects the "general" dict |
| `Terminology.DefaultTermsWellFormed` | medical_terms.py:10-74 | every built-in dict has distinct keys, each a lower-case phrase that starts and ends with a word character |
| `Terminology.MissingDocumentActsAsDefaults` | medical_terms.py:98-109 | a missing document is first written from the defaults, so loading selects what a failed load selects from the defaults |
| `Terminology.EmptyContextDictIsKept` | medical_terms.py:186-189 | a context stored with an empty dict does not fall back to "general"; enhancing then only expands abbreviations |
| `Terminology.SubstituteTermsUnchanged` | medical_terms.py:197-202 | a text in which no key of the dict stands as a whole word comes back unchanged from the term pass |
| `Terminology.StandaloneTerm` | medical_terms.py:192-201 | a phrase of a well-formed dict written alone, in any letter case, becomes its standard term unless an earlier key already matches there |
| `Terminology.SubstituteTermsOneHit` | medical_terms.py:192-201 | with a single hit, the hit is replaced by the value stored for its lower-cased text (kept if none) and the text around it is kept |
| `Terminology.SubstituteTermsSplice` | medical_terms.py:192-201 | a single hit of a lower-case key that is the first entry with that key is replaced by that entry's term |
| `Terminology.EnhanceWithoutWordChars` | medical_terms.py:182-201 | a text without word characters passes through both stages unchanged, whatever the dict |
| `Terminology.EmptyTextStaysEmpty` | medical_terms.py:171-205 | enhancing the empty text gives the empty text, whatever the context and the document |
| `Terminology.EnhanceIgnoresCase` | medical_terms.py:183-201 | the whole pipeline gives results that differ only in letter case for inputs that differ only in letter case |
| `Examples.HyphenSplitsWords` | medical_terms.py:126 | `\b` treats a hyphen as a word boundary: "T-cell" becomes "temperature-cell" |
| `Examples.GluedBpKept` | medical_terms.py:123 | "BPM" is not "BP": the `\b` after the key fails and the text is kept |
| `Examples.GluedHrKept` | medical_terms.py:124 | "HRs" is not "HR" and is kept |
| `Examples.CaseVariantsExpand` | medical_terms.py:123 | "bp", "Bp", "bP" and "BP" all become "blood pressure" |
| `Examples.PtIsPhysicalTherapy` | medical_terms.py:131 | "Pt" (patient) is expanded to "physical therapy" by the whole stage |
| `Examples.O2SatBecomesOxygenSat` | medical_terms.py:127-128 | "O2 sat" becomes "oxygen sat", never "oxygen saturation" |
| `Examples.ChfExpands` | medical_terms.py:155 | "CHF" becomes "congestive heart failure" through the whole abbreviation stage |
| `Examples.ChfCardiologyPass` | medical_terms.py:27 | the cardiology pass turns "congestive heart failure" into "congestive congestive heart failure" |
| `Examples.ChfInCardiology` | medical_terms.py:171-205 | enhancing "CHF" in cardiology gives "congestive congestive heart failure", whether loading failed or returned the default document |
| `Examples.ChfInGeneral` | medical_terms.py:105 | in a context the defaults do not name, "CHF" gives "congestive heart failure", whether loading failed or returned the default document |
| `Examples.EnhanceNotIdempotent` | medical_terms.py:171-205 | enhancing the cardiology result for "CHF" again adds another "congestive": the operation is not idempotent |

## Left out

- File I/O is not modelled: `initialize_medical_terms`, the JSON file path, `os.makedirs`, `open` and `json.load`. The outcome of reading is a parameter, `Option<Document>`. `ReadTermsFile` models only the three outcomes: missing (then written from the defaults), unreadable, and stored.
- JSON documents whose values are not dicts of strings, and duplicate JSON keys, are not modelled. A `Document` is always a sequence of context names with string-to-string dicts.
- The `except` branch around the term `re.sub` (lines 203-205) is not modelled. The pattern is built with `re.escape` from string keys, so compiling it cannot fail.
- Messages printed on errors are not modelled.
- Non-ASCII characters are modelled as caseless non-word characters: `\w`, `str.lower` and `re.IGNORECASE` follow their ASCII behaviour only. Python's `\w` and case mappings are Unicode-aware, so every result of the model differs from Python's whenever a non-ASCII letter touches a key. For example, the "T" entry turns "tú" into "temperatureú" in the model, while Python keeps "tú" because "ú" is a word character.
- `re.escape` is not modelled: keys are compared literally, which is what an escaped pattern matches.
- The `__main__` sample sentence (lines 213-214) is not shown as a concrete example. Neither its abbreviation stage nor its cardiology pass is worked out. That pass has two hits ("high blood pressure" and "heart attack"); `Rewrite.SubstituteTwoHits` states the general two-hit case, and no concrete term pass with two hits is shown.
- `app.py`, the backend and the frontend are not part of this model.
- `Ascii.Lower`: its contract states only the length; the pointwise content is `Ascii.LowerAt`.
- `WordMatch.FirstAltMatch`: its contract states only bounds; which alternative it picks is `WordMatch.FirstAltMatchSpec`.
