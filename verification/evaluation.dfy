/** Claim evaluation (`evaluateClaim` and `keywordsOverlap` in main.js): a
    claim is contradicted when the story holds a negation cue and shares a long
    word with the claim, supported when it shares a long word and holds no cue,
    and mixed when it shares none. */
module Evaluation {
  import opened Text

  datatype Verdict = Supported | Contradicted | Mixed

  /** What `evaluateClaim` returns: a verdict and its evidence sentence. */
  datatype Assessment = Assessment(verdict: Verdict, evidence: string)

  /** The fixed evidence sentence that goes with each verdict. */
  function Evidence(verdict: Verdict): (text: string)
    ensures |text| > 0
  {
    match verdict
    case Contradicted => "Character's refusal observed in later chapters."
    case Supported => "Consistent behavior observed in the main narrative."
    case Mixed => "Limited direct evidence found in the provided text."
  }

  /** The story holds one of the negation cues "never", "didn't", "refused". */
  predicate HasNegationCue(storyLower: string)
  {
    Contains(storyLower, "never") || Contains(storyLower, "didn't") || Contains(storyLower, "refused")
  }

  /** `.filter(w => w.length > 4)` over a list of words. */
  function LongWords(words: seq<string>): (long: seq<string>)
    ensures |long| <= |words|
    ensures forall k :: 0 <= k < |long| ==> |long[k]| > 4 && long[k] in words
    decreases |words|
  {
    if words == [] then []
    else (if |words[0]| > 4 then [words[0]] else []) + LongWords(words[1..])
  }

  /** `words.some(w => text.includes(w))`. */
  predicate SomeContained(words: seq<string>, text: string)
    decreases |words|
  {
    words != [] && (Contains(text, words[0]) || SomeContained(words[1..], text))
  }

  /** `keywordsOverlap(s1, s2)`: some long word of `s1` occurs in `s2`.
      `s1.split(/\s+/)` is modelled by splitting at every single whitespace
      character; that adds empty pieces only, which the length filter drops. */
  predicate Overlap(s1: string, s2: string)
  {
    SomeContained(LongWords(Split(s1, Whitespace)), s2)
  }

  /** Filtering then testing is testing the long words only. */
  lemma {:induction false} LongWordsSome(words: seq<string>, text: string)
    ensures SomeContained(LongWords(words), text) <==>
      exists k :: 0 <= k < |words| && |words[k]| > 4 && Contains(text, words[k])
    decreases |words|
  {
    if words != [] {
      var tail := words[1..];
      LongWordsSome(tail, text);
      var long := LongWords(words);
      if |words[0]| > 4 {
        assert long == [words[0]] + LongWords(tail);
        assert long[0] == words[0] && long[1..] == LongWords(tail);
      } else {
        assert long == LongWords(tail);
      }
      var inTail := exists k :: 0 <= k < |tail| && |tail[k]| > 4 && Contains(text, tail[k]);
      var inWords := exists k :: 0 <= k < |words| && |words[k]| > 4 && Contains(text, words[k]);
      if inWords {
        var k :| 0 <= k < |words| && |words[k]| > 4 && Contains(text, words[k]);
        if k > 0 {
          assert tail[k - 1] == words[k];
        }
      }
      if inTail {
        var k :| 0 <= k < |tail| && |tail[k]| > 4 && Contains(text, tail[k]);
        assert words[k + 1] == tail[k];
      }
    }
  }

  /** The overlap rule: true exactly when some whitespace-separated word of
      `s1` longer than 4 characters is a substring of `s2`. */
  lemma OverlapIffLongWord(s1: string, s2: string)
    ensures var words := Split(s1, Whitespace);
      Overlap(s1, s2) <==> exists k :: 0 <= k < |words| && |words[k]| > 4 && Contains(s2, words[k])
  {
    var words := Split(s1, Whitespace);
    LongWordsSome(words, s2);
    assert Overlap(s1, s2) == SomeContained(LongWords(words), s2);
  }

  /** A text of at most 4 characters has no long word, so it never
      overlaps. */
  lemma ShortTextNoOverlap(s1: string, s2: string)
    requires |s1| <= 4
    ensures !Overlap(s1, s2)
  {
    OverlapIffLongWord(s1, s2);
  }

  /** `evaluateClaim(claim, story, character)`. */
  function EvaluateClaim(claim: string, story: string, character: string): (a: Assessment)
    ensures a.evidence == Evidence(a.verdict)
  {
    var storyLower := ToLower(story);
    var claimLower := ToLower(claim);
    if HasNegationCue(storyLower) && Overlap(claimLower, storyLower) then
      Assessment(Contradicted, Evidence(Contradicted))
    else if Overlap(claimLower, storyLower) then
      Assessment(Supported, Evidence(Supported))
    else
      Assessment(Mixed, Evidence(Mixed))
  }

  /** The verdict rule, stated through the words of the lower-cased claim:
      contradicted iff a cue occurs and a long claim word occurs in the story,
      supported iff a long claim word occurs and no cue does, mixed iff no long
      claim word occurs. */
  lemma VerdictRule(claim: string, story: string, character: string)
    ensures var storyLower, words := ToLower(story), Split(ToLower(claim), Whitespace);
      var shared := exists k :: 0 <= k < |words| && |words[k]| > 4 && Contains(storyLower, words[k]);
      && (EvaluateClaim(claim, story, character).verdict == Contradicted <==> HasNegationCue(storyLower) && shared)
      && (EvaluateClaim(claim, story, character).verdict == Supported <==> !HasNegationCue(storyLower) && shared)
      && (EvaluateClaim(claim, story, character).verdict == Mixed <==> !shared)
  {
    OverlapIffLongWord(ToLower(claim), ToLower(story));
  }

  /** The character's name plays no part in the evaluation. */
  lemma CharacterIrrelevant(claim: string, story: string, c1: string, c2: string)
    ensures EvaluateClaim(claim, story, c1) == EvaluateClaim(claim, story, c2)
  {
  }

  /** Claim and story are only looked at lower-cased. */
  lemma CaseInsensitive(claim: string, story: string, character: string)
    ensures EvaluateClaim(claim, story, character) == EvaluateClaim(ToLower(claim), ToLower(story), character)
  {
    LowerIdempotent(claim);
    LowerIdempotent(story);
  }
}
