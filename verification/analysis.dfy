/** The analysis pipeline (`simulateAnalysis` and `generateExplanation` in
    main.js): score the four traits, segment the backstory into claims,
    evaluate every claim against the story, predict 0 (contradicted) when at
    least two claims are contradicted and 1 (consistent) otherwise, and explain
    the prediction in templated prose. */
module Analysis {
  import opened Text
  import opened Traits
  import opened Claims
  import opened Evaluation

  /** `character_profile`: one level per trait. */
  datatype Profile = Profile(violence: Level, riskTaking: Level, trustworthiness: Level, authorityRespect: Level)

  /** One row of `claim_analysis`. */
  datatype ClaimEntry = ClaimEntry(claim: string, verdict: Verdict, evidence: string)

  /** The object `simulateAnalysis` returns. */
  datatype Report = Report(prediction: int, profile: Profile, claims: seq<ClaimEntry>, explanation: string)

  /** `rawClaims.map(...)`: one entry per claim, in the same order, carrying
      the claim unchanged and its evaluation. */
  function AnalyseClaims(rawClaims: seq<string>, story: string, character: string): (entries: seq<ClaimEntry>)
    ensures |entries| == |rawClaims|
    ensures forall i :: 0 <= i < |rawClaims| ==>
      && entries[i].claim == rawClaims[i]
      && entries[i].verdict == EvaluateClaim(rawClaims[i], story, character).verdict
      && entries[i].evidence == Evidence(entries[i].verdict)
  {
    seq(|rawClaims|, i requires 0 <= i < |rawClaims| =>
      var assessment := EvaluateClaim(rawClaims[i], story, character);
      ClaimEntry(rawClaims[i], assessment.verdict, assessment.evidence))
  }

  /** `filter(c => c.verdict === 'contradicted')`, in order. */
  function ContradictedEntries(entries: seq<ClaimEntry>): (found: seq<ClaimEntry>)
    ensures |found| <= |entries|
    ensures forall k :: 0 <= k < |found| ==> found[k].verdict == Contradicted && found[k] in entries
    decreases |entries|
  {
    if entries == [] then []
    else (if entries[0].verdict == Contradicted then [entries[0]] else []) + ContradictedEntries(entries[1..])
  }

  /** Some entry is contradicted exactly when the filter finds one, and the
      first one it finds is the first contradicted entry. */
  lemma {:induction false} FirstContradicted(entries: seq<ClaimEntry>, i: nat)
    requires i < |entries| && entries[i].verdict == Contradicted
    requires forall j :: 0 <= j < i ==> entries[j].verdict != Contradicted
    ensures |ContradictedEntries(entries)| > 0
    ensures ContradictedEntries(entries)[0] == entries[i]
    decreases i
  {
    if i > 0 {
      var tail := entries[1..];
      forall j | 0 <= j < i - 1 ensures tail[j].verdict != Contradicted {
        assert tail[j] == entries[j + 1];
      }
      FirstContradicted(tail, i - 1);
      assert ContradictedEntries(entries) == ContradictedEntries(tail);
    }
  }

  /** The filter finds nothing exactly when no entry is contradicted. */
  lemma NoneContradicted(entries: seq<ClaimEntry>)
    ensures ContradictedEntries(entries) == [] <==> forall i :: 0 <= i < |entries| ==> entries[i].verdict != Contradicted
  {
    if i :| 0 <= i < |entries| && entries[i].verdict == Contradicted {
      var least := LeastContradicted(entries, i);
      FirstContradicted(entries, least);
    }
  }

  /** Any contradicted entry has a first one at or before it. */
  lemma {:induction false} LeastContradicted(entries: seq<ClaimEntry>, i: nat) returns (least: nat)
    requires i < |entries| && entries[i].verdict == Contradicted
    ensures least <= i && entries[least].verdict == Contradicted
    ensures forall j :: 0 <= j < least ==> entries[j].verdict != Contradicted
    decreases i
  {
    if j :| 0 <= j < i && entries[j].verdict == Contradicted {
      least := LeastContradicted(entries, j);
    } else {
      least := i;
    }
  }

  /** At least two entries are found exactly when two distinct entries are
      contradicted. */
  lemma {:induction false} TwoContradicted(entries: seq<ClaimEntry>)
    ensures |ContradictedEntries(entries)| >= 2 <==>
      exists i, j :: 0 <= i < j < |entries| && entries[i].verdict == Contradicted && entries[j].verdict == Contradicted
    decreases |entries|
  {
    if entries != [] {
      var tail := entries[1..];
      TwoContradicted(tail);
      NoneContradicted(tail);
      var head := entries[0].verdict == Contradicted;
      assert |ContradictedEntries(entries)| == (if head then 1 else 0) + |ContradictedEntries(tail)|;
      if i, j :| 0 <= i < j < |entries| && entries[i].verdict == Contradicted && entries[j].verdict == Contradicted {
        assert tail[j - 1] == entries[j];
        if i > 0 {
          assert tail[i - 1] == entries[i];
        }
      }
      if |ContradictedEntries(entries)| >= 2 {
        if head {
          var j :| 0 <= j < |tail| && tail[j].verdict == Contradicted;
          assert entries[j + 1] == tail[j];
        } else {
          var i, j :| 0 <= i < j < |tail| && tail[i].verdict == Contradicted && tail[j].verdict == Contradicted;
          assert entries[i + 1] == tail[i] && entries[j + 1] == tail[j];
        }
      }
    }
  }

  /** Only whether an entry is contradicted matters to the count: turning a
      mixed entry into a supported one, or the reverse, changes nothing. */
  lemma {:induction false} CountIgnoresOtherVerdicts(e1: seq<ClaimEntry>, e2: seq<ClaimEntry>)
    requires |e1| == |e2|
    requires forall i :: 0 <= i < |e1| ==> (e1[i].verdict == Contradicted <==> e2[i].verdict == Contradicted)
    ensures |ContradictedEntries(e1)| == |ContradictedEntries(e2)|
    decreases |e1|
  {
    if e1 != [] {
      forall i | 0 <= i < |e1| - 1 ensures e1[1..][i].verdict == Contradicted <==> e2[1..][i].verdict == Contradicted {
        assert e1[1..][i] == e1[i + 1] && e2[1..][i] == e2[i + 1];
      }
      CountIgnoresOtherVerdicts(e1[1..], e2[1..]);
    }
  }

  /** The final prediction rule: 0 when at least two claims are
      contradicted, 1 otherwise. */
  function Prediction(entries: seq<ClaimEntry>): (prediction: int)
    ensures prediction == 0 || prediction == 1
    ensures prediction == 0 <==>
      exists i, j :: 0 <= i < j < |entries| && entries[i].verdict == Contradicted && entries[j].verdict == Contradicted
  {
    TwoContradicted(entries);
    if |ContradictedEntries(entries)| >= 2 then 0 else 1
  }

  /** A single contradicted claim never flips the prediction. */
  lemma OneContradictionIsConsistent(entries: seq<ClaimEntry>, i: nat)
    requires i < |entries| && entries[i].verdict == Contradicted
    requires forall j :: 0 <= j < |entries| && j != i ==> entries[j].verdict != Contradicted
    ensures Prediction(entries) == 1
  {
  }

  /** `status`, before upper-casing. */
  function Status(prediction: int): string
  {
    if prediction == 1 then "Consistent" else "Contradicted"
  }

  /** `status.toUpperCase()` is the word shown in the explanation. */
  lemma StatusUpperCase(prediction: int)
    ensures ToUpper(Status(prediction)) == if prediction == 1 then "CONSISTENT" else "CONTRADICTED"
  {
    var s := Status(prediction);
    var u := if prediction == 1 then "CONSISTENT" else "CONTRADICTED";
    forall k | 0 <= k < |s| ensures ToUpper(s)[k] == u[k] {
      assert ToUpper(s)[k] == UpperChar(s[k]);
    }
  }

  /** `base`: the opening sentence naming the character and the status. */
  function Opening(prediction: int, character: string): string
  {
    "After deep narrative analysis, " + character + "'s behavior in the story is judged as "
    + ToUpper(Status(prediction)) + " with their established backstory. "
  }

  /** The phrase quoted when the prediction is 0: the claim of the first
      contradicted entry, or a stock phrase when there is none or it is empty
      (JavaScript's `||` also rejects the empty string). */
  function QuotedClaim(entries: seq<ClaimEntry>): (quoted: string)
    ensures |quoted| > 0
  {
    var reasons := ContradictedEntries(entries);
    if |reasons| > 0 && reasons[0].claim != "" then reasons[0].claim
    else "the character is consistent"
  }

  /** The sentences added when the prediction is 1. */
  function ConsistentRemark(profile: Profile): string
  {
    "The character maintains their core traits of being "
    + (profile.trustworthiness.Name() + " in trustworthiness")
    + " and displaying "
    + (profile.riskTaking.Name() + " levels of risk-taking")
    + " throughout the events. Most importantly, major claims from the backstory were echoed in their decisions during the story climax."
  }

  /** A phrase between double quotes. */
  function Quote(phrase: string): string
  {
    "\"" + phrase + "\""
  }

  /** The sentences added otherwise, quoting a claim. */
  function DriftRemark(quoted: string): string
  {
    "Significant behavioral drift was detected. Specifically, the backstory claim that " + Quote(quoted)
    + " was directly violated by actions in the story. These contradictions reflect a fundamental break from the character's established psychological profile."
  }

  /** `generateExplanation(prediction, character, profile, claims)`. */
  function Explain(prediction: int, character: string, profile: Profile, entries: seq<ClaimEntry>): (text: string)
    ensures StartsWith(text, Opening(prediction, character))
  {
    var opening := Opening(prediction, character);
    var remark := if prediction == 1 then ConsistentRemark(profile) else DriftRemark(QuotedClaim(entries));
    PrefixStartsWith(opening, remark);
    opening + remark
  }

  /** The explanation names the character and the upper-cased status. */
  lemma ExplanationNamesStatus(prediction: int, character: string, profile: Profile, entries: seq<ClaimEntry>)
    ensures Contains(Explain(prediction, character, profile, entries), character)
    ensures Contains(Explain(prediction, character, profile, entries),
                     if prediction == 1 then "CONSISTENT" else "CONTRADICTED")
  {
    var text := Explain(prediction, character, profile, entries);
    var intro := "After deep narrative analysis, ";
    var middle := "'s behavior in the story is judged as ";
    var status := ToUpper(Status(prediction));
    var tail := " with their established backstory. ";
    var opening := Opening(prediction, character);
    assert opening == intro + character + middle + status + tail;
    assert text == opening + text[|opening|..];
    ContainsSecondAndFourth(intro, character, middle, status, tail);
    ContainsInLeft(opening, text[|opening|..], character);
    ContainsInLeft(opening, text[|opening|..], status);
    StatusUpperCase(prediction);
  }

  /** When the prediction is 1 the explanation reports the trustworthiness
      level as the trustworthiness level and the risk-taking level as the
      risk-taking level. */
  lemma ExplanationReportsTraits(character: string, profile: Profile, entries: seq<ClaimEntry>)
    ensures Contains(Explain(1, character, profile, entries), profile.trustworthiness.Name() + " in trustworthiness")
    ensures Contains(Explain(1, character, profile, entries), profile.riskTaking.Name() + " levels of risk-taking")
    ensures Contains(Explain(1, character, profile, entries), profile.trustworthiness.Name())
    ensures Contains(Explain(1, character, profile, entries), profile.riskTaking.Name())
  {
    var text := Explain(1, character, profile, entries);
    var opening := Opening(1, character);
    var lead := "The character maintains their core traits of being ";
    var trust := profile.trustworthiness.Name() + " in trustworthiness";
    var mid := " and displaying ";
    var risk := profile.riskTaking.Name() + " levels of risk-taking";
    var end := " throughout the events. Most importantly, major claims from the backstory were echoed in their decisions during the story climax.";
    var remark := ConsistentRemark(profile);
    assert remark == lead + trust + mid + risk + end;
    assert text == opening + remark;
    ContainsSecondAndFourth(lead, trust, mid, risk, end);
    ContainsInRight(opening, remark, trust);
    ContainsInRight(opening, remark, risk);
    ContainsLeft(profile.trustworthiness.Name(), " in trustworthiness");
    ContainsTransitive(text, trust, profile.trustworthiness.Name());
    ContainsLeft(profile.riskTaking.Name(), " levels of risk-taking");
    ContainsTransitive(text, risk, profile.riskTaking.Name());
  }

  /** When the prediction is not 1 and some claim is contradicted, the
      explanation quotes the first contradicted claim (when it is not empty). */
  lemma ExplanationQuotesFirstContradiction(prediction: int, character: string, profile: Profile,
                                            entries: seq<ClaimEntry>, i: nat)
    requires prediction != 1
    requires i < |entries| && entries[i].verdict == Contradicted && entries[i].claim != ""
    requires forall j :: 0 <= j < i ==> entries[j].verdict != Contradicted
    ensures QuotedClaim(entries) == entries[i].claim
    ensures Contains(Explain(prediction, character, profile, entries), Quote(entries[i].claim))
  {
    FirstContradicted(entries, i);
    QuotesRemark(prediction, character, profile, entries);
  }

  /** With no contradicted claim the stock phrase is quoted instead. */
  lemma ExplanationFallback(prediction: int, character: string, profile: Profile, entries: seq<ClaimEntry>)
    requires prediction != 1
    requires forall j :: 0 <= j < |entries| ==> entries[j].verdict != Contradicted
    ensures QuotedClaim(entries) == "the character is consistent"
    ensures Contains(Explain(prediction, character, profile, entries), Quote("the character is consistent"))
  {
    NoneContradicted(entries);
    QuotesRemark(prediction, character, profile, entries);
  }

  /** The drift remark quotes `QuotedClaim`. */
  lemma QuotesRemark(prediction: int, character: string, profile: Profile, entries: seq<ClaimEntry>)
    requires prediction != 1
    ensures Contains(Explain(prediction, character, profile, entries), Quote(QuotedClaim(entries)))
  {
    var text := Explain(prediction, character, profile, entries);
    var opening := Opening(prediction, character);
    var quoted := Quote(QuotedClaim(entries));
    var lead := "Significant behavioral drift was detected. Specifically, the backstory claim that ";
    var end := " was directly violated by actions in the story. These contradictions reflect a fundamental break from the character's established psychological profile.";
    var remark := DriftRemark(QuotedClaim(entries));
    assert remark == lead + quoted + end;
    assert text == opening + remark;
    ContainsInfix(lead, quoted, end);
    ContainsInRight(opening, remark, quoted);
  }

  /** When no claim is empty, the quoted phrase is the first contradicted
      claim itself, never the stock phrase. */
  lemma QuotedIsFirstContradicted(entries: seq<ClaimEntry>)
    requires forall i :: 0 <= i < |entries| ==> entries[i].claim != ""
    requires |ContradictedEntries(entries)| > 0
    ensures QuotedClaim(entries) == ContradictedEntries(entries)[0].claim
  {
    var first := ContradictedEntries(entries)[0];
    assert first in entries;
    var i :| 0 <= i < |entries| && entries[i] == first;
  }

  /** The profile `simulateAnalysis` builds: each trait scored on its own
      keyword list. */
  function ProfileOf(backstory: string, story: string): Profile
  {
    Profile(TraitLevel(backstory, story, ViolenceKeywords),
            TraitLevel(backstory, story, RiskTakingKeywords),
            TraitLevel(backstory, story, TrustworthinessKeywords),
            TraitLevel(backstory, story, AuthorityRespectKeywords))
  }

  /** The report `simulateAnalysis` returns, as a value. */
  function AnalysisOf(story: string, backstory: string, character: string): Report
  {
    var profile := ProfileOf(backstory, story);
    var claims := AnalyseClaims(Segment(backstory), story, character);
    var prediction := Prediction(claims);
    Report(prediction, profile, claims, Explain(prediction, character, profile, claims))
  }

  /** The prediction is 0 exactly when two of the backstory's claims are
      contradicted by the story, and 1 otherwise. */
  lemma AnalysisPrediction(story: string, backstory: string, character: string)
    ensures var report := AnalysisOf(story, backstory, character);
      && (report.prediction == 0 || report.prediction == 1)
      && (report.prediction == 0 <==>
          exists i, j :: 0 <= i < j < |report.claims|
            && report.claims[i].verdict == Contradicted && report.claims[j].verdict == Contradicted)
  {
  }

  /** One entry per claim, in order, each carrying its claim unchanged. */
  lemma AnalysisClaims(story: string, backstory: string, character: string)
    ensures var report, rawClaims := AnalysisOf(story, backstory, character), Segment(backstory);
      && |report.claims| == |rawClaims|
      && (forall i :: 0 <= i < |rawClaims| ==>
            report.claims[i].claim == rawClaims[i]
            && report.claims[i].verdict == EvaluateClaim(rawClaims[i], story, character).verdict)
  {
  }

  /** A backstory without claims gives no entries and the prediction 1. */
  lemma AnalysisWithoutClaims(story: string, backstory: string, character: string)
    requires Segment(backstory) == []
    ensures AnalysisOf(story, backstory, character).claims == []
    ensures AnalysisOf(story, backstory, character).prediction == 1
  {
  }

  /** For segmented claims (never empty), a prediction of 0 comes with an
      explanation quoting the first contradicted claim. */
  lemma InconsistentQuotesClaim(character: string, profile: Profile, entries: seq<ClaimEntry>)
    requires forall i :: 0 <= i < |entries| ==> entries[i].claim != ""
    ensures Prediction(entries) == 0 ==>
      && |ContradictedEntries(entries)| >= 2
      && QuotedClaim(entries) == ContradictedEntries(entries)[0].claim
      && Contains(Explain(Prediction(entries), character, profile, entries),
                  Quote(ContradictedEntries(entries)[0].claim))
  {
    if Prediction(entries) == 0 {
      QuotedIsFirstContradicted(entries);
      QuotesRemark(0, character, profile, entries);
    }
  }

  /** When the prediction is 0 the explanation quotes the first contradicted
      claim, never the stock phrase. */
  lemma AnalysisQuotesFirstContradiction(story: string, backstory: string, character: string)
    ensures var report := AnalysisOf(story, backstory, character);
      report.prediction == 0 ==>
        && |ContradictedEntries(report.claims)| >= 2
        && QuotedClaim(report.claims) == ContradictedEntries(report.claims)[0].claim
        && Contains(report.explanation, Quote(ContradictedEntries(report.claims)[0].claim))
  {
    var rawClaims := Segment(backstory);
    var claims := AnalyseClaims(rawClaims, story, character);
    assert forall i :: 0 <= i < |claims| ==> claims[i].claim == rawClaims[i];
    InconsistentQuotesClaim(character, ProfileOf(backstory, story), claims);
  }

  /** The `findings` block of `simulateAnalysis`: `determineTrait` once per
      trait. */
  method ScoreProfile(backstory: string, story: string) returns (profile: Profile)
    ensures profile == ProfileOf(backstory, story)
  {
    var violence := DetermineTrait(backstory, story, ViolenceKeywords);
    var riskTaking := DetermineTrait(backstory, story, RiskTakingKeywords);
    var trustworthiness := DetermineTrait(backstory, story, TrustworthinessKeywords);
    var authorityRespect := DetermineTrait(backstory, story, AuthorityRespectKeywords);
    profile := Profile(violence, riskTaking, trustworthiness, authorityRespect);
  }

  /** `simulateAnalysis(story, backstory, character)`. */
  method SimulateAnalysis(story: string, backstory: string, character: string) returns (report: Report)
    ensures report == AnalysisOf(story, backstory, character)
  {
    var profile := ScoreProfile(backstory, story);
    var rawClaims := Segment(backstory);
    var claims := AnalyseClaims(rawClaims, story, character);
    var prediction := Prediction(claims);
    report := Report(prediction, profile, claims, Explain(prediction, character, profile, claims));
  }
}
