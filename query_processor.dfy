/** Query rewriting: lower-casing and whole-word expansion of abbreviations and medical terms,
    the age pattern and the entity slots, and the expanded retrieval query. The named-entity
    recogniser's output is an input. Text is ASCII. */
module QueryProcessor {
  import opened Wrappers
  import Text

  // ----- re.sub(r'\b' + key + r'\b', repl, s) --------------------------------------------------

  /** Position `q` of `s` holds a `\w` character (positions outside `s` do not). */
  predicate WordAt(s: string, q: int)
  {
    0 <= q < |s| && Text.IsWordChar(s[q])
  }

  /** `\b` at position `p`: exactly one side of `p` is a word character. */
  predicate Boundary(s: string, p: int)
  {
    WordAt(s, p - 1) != WordAt(s, p)
  }

  /** The pattern `\bkey\b` matches at `p`. */
  predicate MatchAt(s: string, key: string, p: nat)
  {
    p + |key| <= |s| && Boundary(s, p) && Boundary(s, p + |key|) && s[p..p + |key|] == key
  }

  /** Some whole-word occurrence of `key` in `s`. */
  predicate HasWordMatch(s: string, key: string)
  {
    exists p :: 0 <= p <= |s| && MatchAt(s, key, p)
  }

  /** The scan of `re.sub` from position `p`: every match, found left to right and not
      overlapping the one before it, is replaced; other characters are copied. */
  function SubFrom(s: string, key: string, repl: string, p: nat): string
    requires |key| > 0 && p <= |s|
    decreases |s| - p
  {
    if p == |s| then ""
    else if MatchAt(s, key, p) then repl + SubFrom(s, key, repl, p + |key|)
    else [s[p]] + SubFrom(s, key, repl, p + 1)
  }

  /** `re.sub(r'\b' + key + r'\b', repl, s)` for a key without regular-expression syntax. */
  function ReplaceWord(s: string, key: string, repl: string): string
    requires |key| > 0
  {
    SubFrom(s, key, repl, 0)
  }

  lemma {:induction false} SubFromIdentity(s: string, key: string, repl: string, p: nat)
    requires |key| > 0 && p <= |s| && !HasWordMatch(s, key)
    ensures SubFrom(s, key, repl, p) == s[p..]
    decreases |s| - p
  {
    if p < |s| {
      assert !MatchAt(s, key, p);
      SubFromIdentity(s, key, repl, p + 1);
      assert s[p..] == [s[p]] + s[p + 1..];
    }
  }

  /** A key with no whole-word occurrence leaves the string as it is. */
  lemma ReplaceWordIdentity(s: string, key: string, repl: string)
    requires |key| > 0 && !HasWordMatch(s, key)
    ensures ReplaceWord(s, key, repl) == s
  {
    SubFromIdentity(s, key, repl, 0);
  }

  lemma {:induction false} SubFromNoUpper(s: string, key: string, repl: string, p: nat)
    requires |key| > 0 && p <= |s| && Text.NoUpper(s) && Text.NoUpper(repl)
    ensures Text.NoUpper(SubFrom(s, key, repl, p))
    decreases |s| - p
  {
    if p < |s| {
      if MatchAt(s, key, p) {
        SubFromNoUpper(s, key, repl, p + |key|);
        Text.NoUpperConcat(repl, SubFrom(s, key, repl, p + |key|));
      } else {
        SubFromNoUpper(s, key, repl, p + 1);
        Text.NoUpperConcat([s[p]], SubFrom(s, key, repl, p + 1));
      }
    }
  }

  // ----- preprocess_query ----------------------------------------------------------------------

  /** A substitution rule: `(key, replacement)`, one entry of an insertion-ordered dict. */
  type Rule = (string, string)

  /** `self.abbreviations`, in dict order. */
  const Abbreviations: seq<Rule> := [
    ("M", "male"), ("F", "female"), ("yr", "year"), ("yrs", "years"), ("mo", "month"),
    ("mos", "months"), ("dx", "diagnosis"), ("tx", "treatment"), ("sx", "surgery")]

  /** `self.medical_terms`, in dict order. */
  const MedicalTerms: seq<Rule> := [
    ("knee surgery", "orthopedic knee procedure"), ("heart attack", "myocardial infarction"),
    ("diabetes", "diabetes mellitus")]

  predicate NonEmptyKeys(rules: seq<Rule>)
  {
    forall i :: 0 <= i < |rules| ==> |rules[i].0| > 0
  }

  /** The rules applied one after the other, in order, each once over the whole string. */
  function ApplyRules(s: string, rules: seq<Rule>): string
    requires NonEmptyKeys(rules)
    decreases |rules|
  {
    if rules == [] then s
    else ReplaceWord(ApplyRules(s, rules[..|rules| - 1]), rules[|rules| - 1].0, rules[|rules| - 1].1)
  }

  /** The abbreviations with their keys lower-cased, as the loop passes them to `re.sub`. */
  function LoweredAbbreviations(): (r: seq<Rule>)
    ensures |r| == |Abbreviations| && NonEmptyKeys(r)
    ensures forall i :: 0 <= i < |r| ==> r[i] == (Text.Lower(Abbreviations[i].0), Abbreviations[i].1)
  {
    seq(|Abbreviations|, i requires 0 <= i < |Abbreviations| => (Text.Lower(Abbreviations[i].0), Abbreviations[i].1))
  }

  /** The result of `preprocess_query(query)`. */
  function Preprocess(query: string): string
  {
    ApplyRules(ApplyRules(Text.Lower(query), LoweredAbbreviations()), MedicalTerms)
  }

  /** `preprocess_query`: lower-case, then every abbreviation, then every medical term. */
  method PreprocessQuery(query: string) returns (processed: string)
    ensures processed == Preprocess(query)
    ensures Text.NoUpper(processed)
  {
    processed := Text.Lower(query);
    ghost var lowered := LoweredAbbreviations();
    for i := 0 to |Abbreviations|
      invariant processed == ApplyRules(Text.Lower(query), lowered[..i])
    {
      assert lowered[..i + 1][..i] == lowered[..i];
      var abbrev, fullForm := Abbreviations[i].0, Abbreviations[i].1;
      processed := ReplaceWord(processed, Text.Lower(abbrev), fullForm);
    }
    assert lowered[..|Abbreviations|] == lowered;
    ghost var afterAbbreviations := processed;
    for i := 0 to |MedicalTerms|
      invariant processed == ApplyRules(afterAbbreviations, MedicalTerms[..i])
    {
      assert MedicalTerms[..i + 1][..i] == MedicalTerms[..i];
      var term, expansion := MedicalTerms[i].0, MedicalTerms[i].1;
      processed := ReplaceWord(processed, term, expansion);
    }
    assert MedicalTerms[..|MedicalTerms|] == MedicalTerms;
    PreprocessNoUpper(query);
  }

  predicate LowercaseReplacements(rules: seq<Rule>)
  {
    forall i :: 0 <= i < |rules| ==> Text.NoUpper(rules[i].1)
  }

  lemma {:induction false} ApplyRulesNoUpper(s: string, rules: seq<Rule>)
    requires NonEmptyKeys(rules) && LowercaseReplacements(rules) && Text.NoUpper(s)
    ensures Text.NoUpper(ApplyRules(s, rules))
    decreases |rules|
  {
    if rules != [] {
      var init := rules[..|rules| - 1];
      ApplyRulesNoUpper(s, init);
      SubFromNoUpper(ApplyRules(s, init), rules[|rules| - 1].0, rules[|rules| - 1].1, 0);
    }
  }

  /** Every replacement string is lower-case. */
  lemma ReplacementsLowercase()
    ensures LowercaseReplacements(LoweredAbbreviations()) && LowercaseReplacements(MedicalTerms)
  {
    AbbreviationWordsLowercase();
    MedicalWordsLowercase();
    assert forall i :: 0 <= i < |Abbreviations| ==>
      Abbreviations[i].1 in ["male", "female", "year", "years", "month", "months", "diagnosis", "treatment", "surgery"];
    assert forall i :: 0 <= i < |MedicalTerms| ==>
      MedicalTerms[i].1 in ["orthopedic knee procedure", "myocardial infarction", "diabetes mellitus"];
  }

  lemma AbbreviationWordsLowercase()
    ensures Text.NoUpper("male") && Text.NoUpper("female") && Text.NoUpper("year") && Text.NoUpper("years")
    ensures Text.NoUpper("month") && Text.NoUpper("months") && Text.NoUpper("diagnosis")
    ensures Text.NoUpper("treatment") && Text.NoUpper("surgery")
  {
  }

  lemma MedicalWordsLowercase()
    ensures Text.NoUpper("orthopedic knee procedure") && Text.NoUpper("myocardial infarction")
    ensures Text.NoUpper("diabetes mellitus")
  {
  }

  /** The rewritten query has no upper-case letter: the input is lower-cased and every
      replacement is lower-case. */
  lemma PreprocessNoUpper(query: string)
    ensures Text.NoUpper(Preprocess(query))
  {
    var lowered := LoweredAbbreviations();
    ReplacementsLowercase();
    ApplyRulesNoUpper(Text.Lower(query), lowered);
    ApplyRulesNoUpper(ApplyRules(Text.Lower(query), lowered), MedicalTerms);
  }

  function Keys(rules: seq<Rule>): (r: seq<string>)
    ensures |r| == |rules| && forall i :: 0 <= i < |rules| ==> r[i] == rules[i].0
  {
    seq(|rules|, i requires 0 <= i < |rules| => rules[i].0)
  }

  lemma {:induction false} ApplyRulesIdentity(s: string, rules: seq<Rule>)
    requires NonEmptyKeys(rules)
    requires forall i :: 0 <= i < |rules| ==> !HasWordMatch(s, rules[i].0)
    ensures ApplyRules(s, rules) == s
    decreases |rules|
  {
    if rules != [] {
      ApplyRulesIdentity(s, rules[..|rules| - 1]);
      ReplaceWordIdentity(s, rules[|rules| - 1].0, rules[|rules| - 1].1);
    }
  }

  /** A query holding none of the keys as a whole word comes back lower-cased and otherwise
      unchanged. */
  lemma PreprocessIdentity(query: string)
    requires forall k :: k in Keys(LoweredAbbreviations()) + Keys(MedicalTerms) ==> !HasWordMatch(Text.Lower(query), k)
    ensures Preprocess(query) == Text.Lower(query)
  {
    var lowered := LoweredAbbreviations();
    var s := Text.Lower(query);
    forall i | 0 <= i < |lowered| ensures !HasWordMatch(s, lowered[i].0) {
      assert Keys(lowered)[i] in Keys(lowered) + Keys(MedicalTerms);
    }
    ApplyRulesIdentity(s, lowered);
    forall i | 0 <= i < |MedicalTerms| ensures !HasWordMatch(s, MedicalTerms[i].0) {
      assert Keys(MedicalTerms)[i] in Keys(lowered) + Keys(MedicalTerms);
    }
    ApplyRulesIdentity(s, MedicalTerms);
  }

  /** Whole words only: `mo` does not match inside `mos`, and `m` does not match inside `mri`. */
  lemma WholeWordsOnly()
    ensures ReplaceWord("3 mos", "mo", "month") == "3 mos"
    ensures ReplaceWord("mri m", "m", "male") == "mri male"
  {
    assert !MatchAt("3 mos", "mo", 2);
    assert MatchAt("mri m", "m", 4) && !MatchAt("mri m", "m", 0);
  }

  /** The lower-cased abbreviation table. */
  lemma LoweredAbbreviationsValue()
    ensures LoweredAbbreviations() == [
      ("m", "male"), ("f", "female"), ("yr", "year"), ("yrs", "years"), ("mo", "month"),
      ("mos", "months"), ("dx", "diagnosis"), ("tx", "treatment"), ("sx", "surgery")]
  {
    assert Text.Lower("M") == "m" && Text.Lower("F") == "f";
    assert Text.Lower("yr") == "yr" && Text.Lower("yrs") == "yrs";
    assert Text.Lower("mo") == "mo" && Text.Lower("mos") == "mos";
    assert Text.Lower("dx") == "dx" && Text.Lower("tx") == "tx" && Text.Lower("sx") == "sx";
  }

  lemma ApplyRulesStep(s: string, rules: seq<Rule>, k: nat)
    requires NonEmptyKeys(rules) && k < |rules|
    ensures ApplyRules(s, rules[..k + 1]) == ReplaceWord(ApplyRules(s, rules[..k]), rules[k].0, rules[k].1)
  {
    assert rules[..k + 1][..k] == rules[..k];
  }

  /** Rules that each leave `s` as it is leave it as it is together. */
  lemma {:induction false} ApplyRulesUnchanged(s: string, rules: seq<Rule>, k: nat)
    requires NonEmptyKeys(rules) && k <= |rules|
    requires forall j :: 0 <= j < k ==> ReplaceWord(s, rules[j].0, rules[j].1) == s
    ensures ApplyRules(s, rules[..k]) == s
  {
    if k > 0 {
      ApplyRulesUnchanged(s, rules, k - 1);
      ApplyRulesStep(s, rules, k - 1);
    }
  }

  /** A key with a character that does not occur in `s[p..]` has no match there, so the scan
      copies the rest of `s`. */
  lemma {:induction false} AbsentCharCopies(s: string, key: string, repl: string, p: nat, c: char)
    requires |key| > 0 && p <= |s| && c in key && c !in s[p..]
    ensures SubFrom(s, key, repl, p) == s[p..]
    decreases |s| - p
  {
    if p < |s| {
      assert !MatchAt(s, key, p);
      assert s[p + 1..] == s[p..][1..];
      AbsentCharCopies(s, key, repl, p + 1, c);
      assert s[p..] == [s[p]] + s[p + 1..];
    }
  }

  lemma AbsentChar(s: string, key: string, repl: string, c: char)
    requires |key| > 0 && c in key && c !in s
    ensures ReplaceWord(s, key, repl) == s
  {
    assert s[0..] == s;
    AbsentCharCopies(s, key, repl, 0, c);
  }

  /** Abbreviations come before medical terms, so an expanded abbreviation can complete a
      medical term: `knee sx` becomes `orthopedic knee procedure`. */
  lemma KneeSurgery()
    ensures Preprocess("knee sx") == "orthopedic knee procedure"
  {
    Text.LowerOfLowercase("knee sx");
    KneeSxAbbreviations();
    KneeSurgeryTerms();
  }

  lemma KneeSxAbbreviations()
    ensures ApplyRules("knee sx", LoweredAbbreviations()) == "knee surgery"
  {
    LoweredAbbreviationsValue();
    var rules := LoweredAbbreviations();
    var s := "knee sx";
    KneeSxUntouched(rules);
    ApplyRulesUnchanged(s, rules, 8);
    ApplyRulesStep(s, rules, 8);
    assert rules[..9] == rules;
    SxExpands();
  }

  lemma KneeSxUntouched(rules: seq<Rule>)
    requires rules == [("m", "male"), ("f", "female"), ("yr", "year"), ("yrs", "years"), ("mo", "month"),
      ("mos", "months"), ("dx", "diagnosis"), ("tx", "treatment"), ("sx", "surgery")]
    ensures forall j :: 0 <= j < 8 ==> ReplaceWord("knee sx", rules[j].0, rules[j].1) == "knee sx"
  {
    forall j | 0 <= j < 8 ensures ReplaceWord("knee sx", rules[j].0, rules[j].1) == "knee sx" {
      var c := rules[j].0[0];
      assert c in "mfydt";
      AbsentChar("knee sx", rules[j].0, rules[j].1, c);
    }
  }

  lemma SxExpands()
    ensures ReplaceWord("knee sx", "sx", "surgery") == "knee surgery"
  {
  }

  lemma KneeSurgeryTerms()
    ensures ApplyRules("knee surgery", MedicalTerms) == "orthopedic knee procedure"
  {
    var t := "knee surgery";
    var u := "orthopedic knee procedure";
    ApplyRulesStep(t, MedicalTerms, 0);
    assert MedicalTerms[..0] == [];
    assert MatchAt(t, "knee surgery", 0);
    assert ReplaceWord(t, "knee surgery", u) == u + SubFrom(t, "knee surgery", u, 12);
    AbsentChar(u, "heart attack", "myocardial infarction", 'a');
    AbsentChar(u, "diabetes", "diabetes mellitus", 'a');
    MedicalTail(t, u);
  }

  lemma MedicalTail(t: string, u: string)
    requires ApplyRules(t, MedicalTerms[..1]) == u
    requires ReplaceWord(u, "heart attack", "myocardial infarction") == u
    requires ReplaceWord(u, "diabetes", "diabetes mellitus") == u
    ensures ApplyRules(t, MedicalTerms) == u
  {
    ApplyRulesStep(t, MedicalTerms, 1);
    ApplyRulesStep(t, MedicalTerms, 2);
    assert MedicalTerms[..3] == MedicalTerms;
  }

  /** A string without `f`, `y`, `o` and `x` in which `m` is not a whole word is left as it is
      by every abbreviation. */
  lemma AbbreviationsUntouched(s: string)
    requires 'f' !in s && 'y' !in s && 'o' !in s && 'x' !in s && ReplaceWord(s, "m", "male") == s
    ensures ApplyRules(s, LoweredAbbreviations()) == s
  {
    AbbreviationKeys();
    KeyLettersUntouched(s, LoweredAbbreviations());
  }

  /** Nine rules shaped like the abbreviation table: `m` first, then keys holding `f`, `y`,
      `y`, `o`, `o`, `x`, `x`, `x`. */
  lemma KeyLettersUntouched(s: string, r: seq<Rule>)
    requires NonEmptyKeys(r) && |r| == 9 && r[0] == ("m", "male")
    requires 'f' in r[1].0 && 'y' in r[2].0 && 'y' in r[3].0 && 'o' in r[4].0 && 'o' in r[5].0
    requires 'x' in r[6].0 && 'x' in r[7].0 && 'x' in r[8].0
    requires 'f' !in s && 'y' !in s && 'o' !in s && 'x' !in s && ReplaceWord(s, "m", "male") == s
    ensures ApplyRules(s, r) == s
  {
    AbsentChar(s, r[1].0, r[1].1, 'f');
    AbsentChar(s, r[2].0, r[2].1, 'y');
    AbsentChar(s, r[3].0, r[3].1, 'y');
    AbsentChar(s, r[4].0, r[4].1, 'o');
    AbsentChar(s, r[5].0, r[5].1, 'o');
    AbsentChar(s, r[6].0, r[6].1, 'x');
    AbsentChar(s, r[7].0, r[7].1, 'x');
    AbsentChar(s, r[8].0, r[8].1, 'x');
    forall j | 0 <= j < 9 ensures ReplaceWord(s, r[j].0, r[j].1) == s {
      assert j == 0 || j == 1 || j == 2 || j == 3 || j == 4 || j == 5 || j == 6 || j == 7 || j == 8;
    }
    ApplyRulesUnchanged(s, r, 9);
    assert r[..9] == r;
  }

  /** The first lower-cased abbreviation is `m`; each of the others holds one of `f`, `y`,
      `o`, `x`. */
  lemma AbbreviationKeys()
    ensures LoweredAbbreviations()[0] == ("m", "male")
    ensures 'f' in LoweredAbbreviations()[1].0
    ensures 'y' in LoweredAbbreviations()[2].0 && 'y' in LoweredAbbreviations()[3].0
    ensures 'o' in LoweredAbbreviations()[4].0 && 'o' in LoweredAbbreviations()[5].0
    ensures 'x' in LoweredAbbreviations()[6].0 && 'x' in LoweredAbbreviations()[7].0
    ensures 'x' in LoweredAbbreviations()[8].0
  {
    LoweredAbbreviationsValue();
  }

  /** The rewrite is not idempotent: `diabetes` becomes `diabetes mellitus`, which becomes
      `diabetes mellitus mellitus`. */
  lemma NotIdempotent()
    ensures Preprocess("diabetes") == "diabetes mellitus"
    ensures Preprocess(Preprocess("diabetes")) == "diabetes mellitus mellitus"
  {
    DiabetesOnce("diabetes");
    DiabetesTwice("diabetes mellitus");
  }

  lemma DiabetesOnce(s: string)
    requires s == "diabetes"
    ensures Preprocess(s) == "diabetes mellitus"
  {
    DiabetesLetters(s);
    AbsentChar(s, "m", "male", 'm');
    ExpandDiabetes(s);
    OnlyDiabetesApplies(s, "diabetes mellitus");
  }

  /** A lower-case string that only the `diabetes` rule touches. */
  lemma OnlyDiabetesApplies(s: string, r: string)
    requires Text.NoUpper(s)
    requires 'f' !in s && 'y' !in s && 'o' !in s && 'x' !in s && ReplaceWord(s, "m", "male") == s
    requires 'k' !in s && 'h' !in s && ReplaceWord(s, "diabetes", "diabetes mellitus") == r
    ensures Preprocess(s) == r
  {
    Text.LowerOfLowercase(s);
    AbbreviationsUntouched(s);
    TermsStep(s, r);
  }

  lemma DiabetesLetters(s: string)
    requires s == "diabetes"
    ensures Text.NoUpper(s)
    ensures 'f' !in s && 'y' !in s && 'o' !in s && 'x' !in s && 'k' !in s && 'h' !in s && 'm' !in s
  {
  }

  lemma ExpandDiabetes(s: string)
    requires s == "diabetes"
    ensures ReplaceWord(s, "diabetes", "diabetes mellitus") == "diabetes mellitus"
  {
    assert MatchAt(s, "diabetes", 0);
  }

  lemma DiabetesTwice(s: string)
    requires s == "diabetes mellitus"
    ensures Preprocess(s) == "diabetes mellitus mellitus"
  {
    DiabetesMellitusLetters(s);
    MellitusHasNoM(s);
    ExpandDiabetesMellitus(s);
    OnlyDiabetesApplies(s, "diabetes mellitus mellitus");
  }

  lemma DiabetesMellitusLetters(s: string)
    requires s == "diabetes mellitus"
    ensures Text.NoUpper(s)
    ensures 'f' !in s && 'y' !in s && 'o' !in s && 'x' !in s && 'k' !in s && 'h' !in s
  {
    DiabetesLetters("diabetes");
    MellitusLetters(" mellitus");
    Text.NoUpperConcat("diabetes", " mellitus");
    assert s == "diabetes" + " mellitus";
  }

  lemma MellitusLetters(s: string)
    requires s == " mellitus"
    ensures Text.NoUpper(s)
    ensures 'f' !in s && 'y' !in s && 'o' !in s && 'x' !in s && 'k' !in s && 'h' !in s && 'd' !in s
  {
  }

  lemma ExpandDiabetesMellitus(s: string)
    requires s == "diabetes mellitus"
    ensures ReplaceWord(s, "diabetes", "diabetes mellitus") == "diabetes mellitus mellitus"
  {
    DiabetesLeads(s);
    MellitusLetters(s[8..]);
    LeadingMatch(s, "diabetes", "diabetes mellitus", 'd');
  }

  lemma DiabetesLeads(s: string)
    requires s == "diabetes mellitus"
    ensures MatchAt(s, "diabetes", 0) && s[8..] == " mellitus"
  {
  }

  /** A match at the start followed by text without one of the key's characters: only the
      start is replaced. */
  lemma LeadingMatch(s: string, key: string, repl: string, c: char)
    requires |key| > 0 && MatchAt(s, key, 0) && c in key && c !in s[|key|..]
    ensures ReplaceWord(s, key, repl) == repl + s[|key|..]
  {
    AbsentCharCopies(s, key, repl, |key|, c);
  }

  lemma MellitusHasNoM(s: string)
    requires s == "diabetes mellitus"
    ensures ReplaceWord(s, "m", "male") == s
  {
    assert !MatchAt(s, "m", 9);
    assert forall j :: 0 <= j < 9 ==> !MatchAt(s, "m", j) by {
      assert 'm' !in s[..9];
      forall j | 0 <= j < 9 ensures !MatchAt(s, "m", j) { assert s[j] == s[..9][j]; }
    }
    assert 'm' !in s[10..];
    AbsentCharCopies(s, "m", "male", 10, 'm');
    SubFromCopies(s, "m", "male", 0, 10);
  }

  /** Positions without a match are copied one by one. */
  lemma {:induction false} SubFromCopies(s: string, key: string, repl: string, p: nat, q: nat)
    requires |key| > 0 && p <= q <= |s|
    requires forall j :: p <= j < q ==> !MatchAt(s, key, j)
    ensures SubFrom(s, key, repl, p) == s[p..q] + SubFrom(s, key, repl, q)
    decreases q - p
  {
    if p < q {
      assert !MatchAt(s, key, p);
      assert SubFrom(s, key, repl, p) == [s[p]] + SubFrom(s, key, repl, p + 1);
      SubFromCopies(s, key, repl, p + 1, q);
      assert s[p..q] == [s[p]] + s[p + 1..q];
    }
  }

  /** The medical-term pass over a string with no `k` and no `h`, when the `diabetes` rule
      gives `r`. */
  lemma TermsStep(s: string, r: string)
    requires 'k' !in s && 'h' !in s && ReplaceWord(s, "diabetes", "diabetes mellitus") == r
    ensures ApplyRules(s, MedicalTerms) == r
  {
    AbsentChar(s, "knee surgery", "orthopedic knee procedure", 'k');
    AbsentChar(s, "heart attack", "myocardial infarction", 'h');
    ApplyRulesUnchanged(s, MedicalTerms, 2);
    ApplyRulesStep(s, MedicalTerms, 2);
    assert MedicalTerms[..3] == MedicalTerms;
  }

  // ----- re.search(r'(\d+)[-\s]*(year|yr|y)[-\s]*old', query, re.IGNORECASE) ---------------

  /** A character of the class `[-\s]`. */
  predicate IsSep(c: char)
  {
    c == '-' || Text.IsSpace(c)
  }

  /** The length of the run of digits that starts at `p` (`DigitRunIsRun`). */
  function DigitRun(s: string, p: nat): (n: nat)
    requires p <= |s|
    ensures p + n <= |s|
    decreases |s| - p
  {
    if p < |s| && Text.IsDigit(s[p]) then 1 + DigitRun(s, p + 1) else 0
  }

  /** The length of the run of `[-\s]` characters that starts at `p` (`SepRunIsRun`). */
  function SepRun(s: string, p: nat): (n: nat)
    requires p <= |s|
    ensures p + n <= |s|
    decreases |s| - p
  {
    if p < |s| && IsSep(s[p]) then 1 + SepRun(s, p + 1) else 0
  }

  /** `DigitRun` covers digits only and stops at the first non-digit. */
  lemma {:induction false} DigitRunIsRun(s: string, p: nat)
    requires p <= |s|
    ensures DigitsIn(s, p, p + DigitRun(s, p))
    ensures p + DigitRun(s, p) < |s| ==> !Text.IsDigit(s[p + DigitRun(s, p)])
    decreases |s| - p
  {
    if p < |s| && Text.IsDigit(s[p]) {
      DigitRunIsRun(s, p + 1);
    }
  }

  lemma {:induction false} SepRunIsRun(s: string, p: nat)
    requires p <= |s|
    ensures SepsIn(s, p, p + SepRun(s, p))
    ensures p + SepRun(s, p) < |s| ==> !IsSep(s[p + SepRun(s, p)])
    decreases |s| - p
  {
    if p < |s| && IsSep(s[p]) {
      SepRunIsRun(s, p + 1);
    }
  }

  /** The lower-case word `w` occurs at `p`, ignoring case. */
  predicate LettersAt(s: string, p: nat, w: string)
  {
    p + |w| <= |s| && forall k :: p <= k < p + |w| ==> Text.LowerChar(s[k]) == w[k - p]
  }

  lemma FirstLetter(s: string, p: nat, w: string)
    requires |w| > 0 && LettersAt(s, p, w)
    ensures Text.LowerChar(s[p]) == w[0]
  {
    assert Text.LowerChar(s[p]) == w[p - p];
  }

  /** From `q`: the alternative `unit`, separators, then `old`. */
  predicate UnitThenOld(s: string, q: nat, unit: string)
  {
    LettersAt(s, q, unit) && LettersAt(s, q + |unit| + SepRun(s, q + |unit|), "old")
  }

  /** The age pattern matches at `p`. Both runs are taken whole: giving back a digit or a
      separator leaves a digit or a separator where the next part of the pattern needs a `y`
      or an `o`, so backtracking finds nothing more (`AgePatternIsAgeAt`). */
  predicate AgeAt(s: string, p: nat)
    requires p <= |s|
  {
    DigitRun(s, p) > 0 && SepsThenUnit(s, p + DigitRun(s, p))
  }

  /** From `r`: separators, then the rest of the pattern. */
  predicate SepsThenUnit(s: string, r: nat)
    requires r <= |s|
  {
    UnitAfter(s, r + SepRun(s, r))
  }

  /** From `q`: one of the alternatives `year`, `yr`, `y`, separators, then `old`. */
  predicate UnitAfter(s: string, q: nat)
  {
    UnitThenOld(s, q, "year") || UnitThenOld(s, q, "yr") || UnitThenOld(s, q, "y")
  }

  predicate DigitsIn(s: string, i: nat, j: nat)
  {
    i <= j <= |s| && forall k :: i <= k < j ==> Text.IsDigit(s[k])
  }

  predicate SepsIn(s: string, i: nat, j: nat)
  {
    i <= j <= |s| && forall k :: i <= k < j ==> IsSep(s[k])
  }

  predicate IsUnit(unit: string)
  {
    unit == "year" || unit == "yr" || unit == "y"
  }

  /** From `q`: `unit`, `e2` separators and `old`. */
  predicate TailPattern(s: string, q: nat, unit: string, e2: nat)
  {
    LettersAt(s, q, unit) && SepsIn(s, q + |unit|, q + |unit| + e2)
    && LettersAt(s, q + |unit| + e2, "old")
  }

  /** The regular expression's own reading of a match at `p`: `d` digits, `e1` separators, one
      of the alternatives, `e2` separators and `old`, with no run length fixed in advance. */
  predicate AgePattern(s: string, p: nat, d: nat, e1: nat, unit: string, e2: nat)
  {
    IsUnit(unit) && d > 0 && DigitsIn(s, p, p + d) && SepsIn(s, p + d, p + d + e1)
    && TailPattern(s, p + d + e1, unit, e2)
  }

  /** A run of digits that ends where a non-digit starts is the whole run. */
  lemma {:induction false} DigitRunExact(s: string, p: nat, n: nat)
    requires DigitsIn(s, p, p + n)
    requires p + n < |s| ==> !Text.IsDigit(s[p + n])
    ensures DigitRun(s, p) == n
    decreases n
  {
    if n > 0 {
      DigitRunExact(s, p + 1, n - 1);
    }
  }

  lemma {:induction false} SepRunExact(s: string, p: nat, n: nat)
    requires SepsIn(s, p, p + n)
    requires p + n < |s| ==> !IsSep(s[p + n])
    ensures SepRun(s, p) == n
    decreases n
  {
    if n > 0 {
      SepRunExact(s, p + 1, n - 1);
    }
  }

  /** A character that lower-cases to a letter is neither a digit nor a separator. */
  lemma LetterIsNoSep(c: char, l: char)
    requires 'a' <= l <= 'z' && Text.LowerChar(c) == l
    ensures !Text.IsDigit(c) && !IsSep(c)
  {
  }

  /** The tail of the pattern, read off with the run of separators taken whole. */
  lemma TailIsUnitThenOld(s: string, q: nat, unit: string, e2: nat)
    requires TailPattern(s, q, unit, e2)
    ensures UnitThenOld(s, q, unit) && SepRun(s, q + |unit|) == e2
  {
    var r := q + |unit| + e2;
    FirstLetter(s, r, "old");
    LetterIsNoSep(s[r], 'o');
    SepRunExact(s, q + |unit|, e2);
  }

  /** The digits and the separators before the alternative are read off as whole runs. */
  lemma HeadRuns(s: string, p: nat, d: nat, e1: nat, unit: string, e2: nat)
    requires AgePattern(s, p, d, e1, unit, e2)
    ensures DigitRun(s, p) == d && SepRun(s, p + d) == e1
  {
    var q := p + d + e1;
    FirstLetter(s, q, unit);
    LetterIsNoSep(s[q], 'y');
    if e1 > 0 {
      assert IsSep(s[p + d]);
    }
    DigitRunExact(s, p, d);
    SepRunExact(s, p + d, e1);
  }

  /** Every way the regular expression can match at `p` is the one `AgeAt` takes, so it and
      the captured digits are right. */
  lemma AgePatternIsAgeAt(s: string, p: nat, d: nat, e1: nat, unit: string, e2: nat)
    requires AgePattern(s, p, d, e1, unit, e2)
    ensures AgeAt(s, p) && DigitRun(s, p) == d
  {
    HeadRuns(s, p, d, e1, unit, e2);
    TailIsUnitThenOld(s, p + d + e1, unit, e2);
    SepsThenUnitIntro(s, p + d, e1, unit);
    AgeAtIntro(s, p, d);
  }

  lemma SepsThenUnitIntro(s: string, r: nat, e1: nat, unit: string)
    requires r <= |s| && SepRun(s, r) == e1 && IsUnit(unit) && UnitThenOld(s, r + e1, unit)
    ensures SepsThenUnit(s, r)
  {
    UnitCases(s, r + e1, unit);
  }

  lemma AgeAtIntro(s: string, p: nat, d: nat)
    requires p <= |s| && DigitRun(s, p) == d && d > 0 && SepsThenUnit(s, p + d)
    ensures AgeAt(s, p)
  {
  }

  lemma UnitCases(s: string, q: nat, unit: string)
    requires IsUnit(unit) && UnitThenOld(s, q, unit)
    ensures UnitAfter(s, q)
  {
  }

  /** And `AgeAt` is a match of the regular expression. */
  lemma AgeAtIsPattern(s: string, p: nat)
    requires p <= |s| && AgeAt(s, p)
    ensures exists e1, unit, e2 :: AgePattern(s, p, DigitRun(s, p), e1, unit, e2)
  {
    var d := DigitRun(s, p);
    DigitRunIsRun(s, p);
    var e1 := SepRun(s, p + d);
    SepRunIsRun(s, p + d);
    PatternFromParts(s, p, d, e1);
  }

  lemma PatternFromParts(s: string, p: nat, d: nat, e1: nat)
    requires d > 0 && DigitsIn(s, p, p + d) && SepsIn(s, p + d, p + d + e1) && UnitAfter(s, p + d + e1)
    ensures exists unit, e2 :: AgePattern(s, p, d, e1, unit, e2)
  {
    var q := p + d + e1;
    if UnitThenOld(s, q, "year") {
      UnitPattern(s, p, d, e1, "year");
    } else if UnitThenOld(s, q, "yr") {
      UnitPattern(s, p, d, e1, "yr");
    } else {
      UnitPattern(s, p, d, e1, "y");
    }
  }

  lemma UnitPattern(s: string, p: nat, d: nat, e1: nat, unit: string)
    requires d > 0 && DigitsIn(s, p, p + d) && SepsIn(s, p + d, p + d + e1)
    requires IsUnit(unit) && UnitThenOld(s, p + d + e1, unit)
    ensures AgePattern(s, p, d, e1, unit, SepRun(s, p + d + e1 + |unit|))
  {
    UnitThenOldIsTail(s, p + d + e1, unit);
  }

  lemma UnitThenOldIsTail(s: string, q: nat, unit: string)
    requires UnitThenOld(s, q, unit)
    ensures TailPattern(s, q, unit, SepRun(s, q + |unit|))
  {
    SepRunIsRun(s, q + |unit|);
  }

  /** `re.search`: the first position at or after `p` where the pattern matches
      (`AgeStartIsLeftmost`). */
  function AgeStart(s: string, p: nat): (r: Option<nat>)
    requires p <= |s|
    ensures r.Some? ==> p <= r.value < |s|
    decreases |s| - p
  {
    if p == |s| then None else if AgeAt(s, p) then Some(p) else AgeStart(s, p + 1)
  }

  /** A position the search returns is a match, ... */
  lemma {:induction false} AgeStartMatches(s: string, p: nat)
    requires p <= |s| && AgeStart(s, p).Some?
    ensures AgeAt(s, AgeStart(s, p).value)
    decreases |s| - p
  {
    if !AgeAt(s, p) {
      AgeStartMatches(s, p + 1);
    }
  }

  /** ... with no match before it ... */
  lemma {:induction false} AgeStartIsLeftmost(s: string, p: nat)
    requires p <= |s| && AgeStart(s, p).Some?
    ensures forall k :: p <= k < AgeStart(s, p).value ==> !AgeAt(s, k)
    decreases |s| - p
  {
    if !AgeAt(s, p) {
      AgeStartIsLeftmost(s, p + 1);
    }
  }

  /** ... and the search fails only when there is no match at all. */
  lemma {:induction false} AgeStartFails(s: string, p: nat)
    requires p <= |s| && AgeStart(s, p).None?
    ensures forall k :: p <= k <= |s| ==> !AgeAt(s, k)
    decreases |s| - p
  {
    if p == |s| {
      assert DigitRun(s, p) == 0;
    } else {
      AgeStartFails(s, p + 1);
    }
  }

  /** `age_match.group(1)`: the digits of the leftmost match, or `None` when there is none. */
  function AgeOf(query: string): (r: Option<string>)
    ensures r.None? <==> forall p :: 0 <= p <= |query| ==> !AgeAt(query, p)
    ensures r.Some? ==> exists p :: 0 <= p < |query| && AgeAt(query, p)
                                   && (forall k :: 0 <= k < p ==> !AgeAt(query, k))
                                   && r.value == query[p..p + DigitRun(query, p)]
    ensures r.Some? ==> |r.value| > 0 && forall i :: 0 <= i < |r.value| ==> Text.IsDigit(r.value[i])
  {
    match AgeStart(query, 0)
    case None =>
      AgeStartFails(query, 0);
      None
    case Some(p) =>
      AgeStartMatches(query, 0);
      AgeStartIsLeftmost(query, 0);
      DigitRunIsRun(query, p);
      DigitsOfSlice(query, p, p + DigitRun(query, p));
      Some(query[p..p + DigitRun(query, p)])
  }

  lemma DigitsOfSlice(s: string, i: nat, j: nat)
    requires DigitsIn(s, i, j)
    ensures forall k :: 0 <= k < j - i ==> Text.IsDigit(s[i..j][k])
  {
    forall k | 0 <= k < j - i ensures Text.IsDigit(s[i..j][k]) {
      assert s[i..j][k] == s[i + k];
    }
  }

  /** `46-year-old` gives the age `46`. */
  lemma HyphenatedAge(s: string)
    requires s == "46-year-old"
    ensures AgeOf(s) == Some("46")
  {
    assert DigitRun(s, 2) == 0;
    assert DigitRun(s, 0) == 2 by { assert DigitRun(s, 1) == 1; }
    assert SepRun(s, 2) == 1 by { assert SepRun(s, 3) == 0; }
    assert SepRun(s, 7) == 1 by { assert SepRun(s, 8) == 0; }
    assert LettersAt(s, 3, "year") by {
      forall k | 3 <= k < 7 ensures Text.LowerChar(s[k]) == "year"[k - 3] {
        assert k == 3 || k == 4 || k == 5 || k == 6;
      }
    }
    assert LettersAt(s, 8, "old") by {
      forall k | 8 <= k < 11 ensures Text.LowerChar(s[k]) == "old"[k - 8] {
        assert k == 8 || k == 9 || k == 10;
      }
    }
    assert UnitThenOld(s, 3, "year");
    SepsThenUnitIntro(s, 2, 1, "year");
    AgeAtIntro(s, 0, 2);
    assert AgeStart(s, 0) == Some(0);
    assert s[0..2] == "46";
  }

  // ----- extract_entities and expand_query ----------------------------------------------------

  /** A named entity as the recogniser reports it: its text and its label (`GPE`, `DATE`, ...). */
  datatype Ent = Ent(text: string, tag: string)

  /** The entity dictionary; `procedure` is never filled in. */
  datatype Entities = Entities(
    age: Option<string>, location: Option<string>, procedure: Option<string>, timePeriod: Option<string>)

  /** The text of the last entity with the label `tag`, or `None` when there is none. */
  function LastTagged(ents: seq<Ent>, tag: string): (r: Option<string>)
    ensures r.None? <==> forall i :: 0 <= i < |ents| ==> ents[i].tag != tag
    ensures r.Some? ==> exists i :: 0 <= i < |ents| && ents[i] == Ent(r.value, tag)
                                     && (forall j :: i < j < |ents| ==> ents[j].tag != tag)
    decreases |ents|
  {
    if ents == [] then None
    else if ents[|ents| - 1].tag == tag then Some(ents[|ents| - 1].text)
    else LastTagged(ents[..|ents| - 1], tag)
  }

  lemma LastTaggedStep(ents: seq<Ent>, i: nat, tag: string)
    requires i < |ents|
    ensures LastTagged(ents[..i + 1], tag)
      == if ents[i].tag == tag then Some(ents[i].text) else LastTagged(ents[..i], tag)
  {
    assert ents[..i + 1][..i] == ents[..i];
  }

  /** `extract_entities(query)` on the recogniser's entities `ents`: the age from the pattern,
      and the last `GPE` and the last `DATE` entity, each overwriting the one before. */
  method ExtractEntities(query: string, ents: seq<Ent>) returns (e: Entities)
    ensures e.age == AgeOf(query) && e.procedure == None
    ensures e.location == LastTagged(ents, "GPE")
    ensures e.timePeriod == LastTagged(ents, "DATE")
  {
    e := Entities(None, None, None, None);
    var ageMatch := AgeOf(query);
    if ageMatch.Some? {
      e := e.(age := ageMatch);
    }
    for i := 0 to |ents|
      invariant e.age == AgeOf(query) && e.procedure == None
      invariant e.location == LastTagged(ents[..i], "GPE")
      invariant e.timePeriod == LastTagged(ents[..i], "DATE")
    {
      LastTaggedStep(ents, i, "GPE");
      LastTaggedStep(ents, i, "DATE");
      if ents[i].tag == "GPE" {
        e := e.(location := Some(ents[i].text));
      } else if ents[i].tag == "DATE" {
        e := e.(timePeriod := Some(ents[i].text));
      }
    }
    assert ents[..|ents|] == ents;
  }

  /** Python truthiness of an entity slot: present and not the empty string. */
  predicate Truthy(v: Option<string>)
  {
    v.Some? && |v.value| > 0
  }

  /** `expand_query(query)`: the query, `. `, then `patient age A years` and
      `treatment location L` for the slots that are filled, in that order, joined by a space. */
  method ExpandQuery(query: string, ents: seq<Ent>) returns (expanded: string)
    ensures var age, loc := AgeOf(query), LastTagged(ents, "GPE");
            && (!Truthy(age) && !Truthy(loc) ==> expanded == query + ". ")
            && (Truthy(age) && !Truthy(loc) ==> expanded == query + ". " + AgePart(age.value))
            && (!Truthy(age) && Truthy(loc) ==> expanded == query + ". " + LocationPart(loc.value))
            && (Truthy(age) && Truthy(loc) ==>
                  expanded == query + ". " + (AgePart(age.value) + " " + LocationPart(loc.value)))
    ensures Text.StartsWith(expanded, query + ". ")
    ensures expanded == Expanded(query, ents)
  {
    var entities := ExtractEntities(query, ents);
    var structuredParts: seq<string> := [];
    if Truthy(entities.age) {
      structuredParts := structuredParts + [AgePart(entities.age.value)];
    }
    if Truthy(entities.location) {
      structuredParts := structuredParts + [LocationPart(entities.location.value)];
    }
    if |structuredParts| == 2 {
      Text.JoinPair(" ", structuredParts[0], structuredParts[1]);
      assert structuredParts == [structuredParts[0], structuredParts[1]];
    }
    assert |structuredParts| == 1 ==> Text.Join(" ", structuredParts) == structuredParts[0];
    assert |structuredParts| == 0 ==> Text.Join(" ", structuredParts) == "";
    expanded := query + ". " + Text.Join(" ", structuredParts);
    assert expanded[..|query + ". "|] == query + ". ";
  }

  /** The query `expand_query` builds: the query, `". "`, then the age part and the location
      part that are present, joined by a blank. */
  function Expanded(query: string, ents: seq<Ent>): (e: string)
    ensures Text.StartsWith(e, query + ". ")
  {
    var age, loc := AgeOf(query), LastTagged(ents, "GPE");
    var e := query + ". " +
      (if Truthy(age) && Truthy(loc) then AgePart(age.value) + " " + LocationPart(loc.value)
       else if Truthy(age) then AgePart(age.value)
       else if Truthy(loc) then LocationPart(loc.value)
       else "");
    assert e[..|query + ". "|] == query + ". ";
    e
  }

  function AgePart(age: string): string
  {
    "patient age " + age + " years"
  }

  function LocationPart(location: string): string
  {
    "treatment location " + location
  }
}
