/** Trait scoring (`determineTrait` and the `findings` profile of
    `simulateAnalysis` in main.js): a trait's score is the number of its
    keywords that occur anywhere in the lower-cased text, and the score is
    mapped onto three levels. */
module Traits {
  import opened Text

  /** The ordinal level a trait is reported at. */
  datatype Level = Low | Medium | High
  {
    /** The string the source uses for the level. */
    function Name(): string
    {
      match this
      case Low => "low"
      case Medium => "medium"
      case High => "high"
    }

    /** Position of the level in the order low < medium < high. */
    function Rank(): nat
    {
      match this
      case Low => 0
      case Medium => 1
      case High => 2
    }
  }

  /** The four keyword lists the profile is scored with. */
  const ViolenceKeywords: seq<string> := ["violent", "aggressive", "angry", "kills", "attacks"]
  const RiskTakingKeywords: seq<string> := ["risk", "dangerous", "gamble", "reckless", "bold"]
  const TrustworthinessKeywords: seq<string> := ["trust", "loyal", "honest", "betrayal", "secret"]
  const AuthorityRespectKeywords: seq<string> := ["law", "rule", "king", "police", "obey", "rebel"]

  /** The threshold map from a score to a level. */
  function LevelOf(score: int): (level: Level)
    ensures level == High <==> score > 3
    ensures level == Medium <==> 2 <= score <= 3
    ensures level == Low <==> score <= 1
  {
    if score > 3 then High
    else if score > 1 then Medium
    else Low
  }

  /** A larger score never gives a lower level. */
  lemma LevelMonotone(a: int, b: int)
    requires a <= b
    ensures LevelOf(a).Rank() <= LevelOf(b).Rank()
  {
  }

  /** The number of keywords that occur in `text`; a keyword counts once
      however often it occurs. */
  function HitCount(text: string, keywords: seq<string>): (n: nat)
    ensures n <= |keywords|
    decreases |keywords|
  {
    if keywords == [] then 0
    else
      var last := keywords[|keywords| - 1];
      HitCount(text, keywords[..|keywords| - 1]) + (if Contains(text, last) then 1 else 0)
  }

  /** The text a trait is scored on: backstory, a space, story, lower-cased. */
  function TraitText(backstory: string, story: string): (text: string)
    ensures |text| == |backstory| + 1 + |story|
    ensures text[|backstory|] == ' '
  {
    ToLower(backstory + " " + story)
  }

  /** The level `determineTrait` reports. */
  function TraitLevel(backstory: string, story: string, keywords: seq<string>): (level: Level)
    ensures level.Rank() <= LevelOf(|keywords|).Rank()
  {
    var score := HitCount(TraitText(backstory, story), keywords);
    LevelMonotone(score, |keywords|);
    LevelOf(score)
  }

  /** `determineTrait`: a running score over the keyword list, then the
      threshold map. */
  method DetermineTrait(backstory: string, story: string, keywords: seq<string>) returns (level: Level)
    ensures level == LevelOf(HitCount(TraitText(backstory, story), keywords))
    ensures level.Rank() <= LevelOf(|keywords|).Rank()
  {
    var score := 0;
    var lowerText := TraitText(backstory, story);
    for i := 0 to |keywords|
      invariant score == HitCount(lowerText, keywords[..i])
    {
      assert keywords[..i + 1][..i] == keywords[..i];
      if Contains(lowerText, keywords[i]) {
        score := score + 1;
      }
    }
    assert keywords[..|keywords|] == keywords;
    LevelMonotone(score, |keywords|);
    if score > 3 {
      level := High;
    } else if score > 1 {
      level := Medium;
    } else {
      level := Low;
    }
  }

  /** Every keyword is found exactly when the score is the list's length. */
  lemma {:induction false} HitCountAll(text: string, keywords: seq<string>)
    ensures HitCount(text, keywords) == |keywords| <==>
      forall k :: 0 <= k < |keywords| ==> Contains(text, keywords[k])
    decreases |keywords|
  {
    if keywords != [] {
      var init := keywords[..|keywords| - 1];
      HitCountAll(text, init);
      assert forall k :: 0 <= k < |init| ==> init[k] == keywords[k];
    }
  }

  /** No keyword is found exactly when the score is zero. */
  lemma {:induction false} HitCountNone(text: string, keywords: seq<string>)
    ensures HitCount(text, keywords) == 0 <==>
      forall k :: 0 <= k < |keywords| ==> !Contains(text, keywords[k])
    decreases |keywords|
  {
    if keywords != [] {
      var init := keywords[..|keywords| - 1];
      HitCountNone(text, init);
      assert forall k :: 0 <= k < |init| ==> init[k] == keywords[k];
    }
  }

  /** The score depends only on which keywords are present: finding more of
      them never lowers it (and finding the same ones gives the same score). */
  lemma {:induction false} HitCountByPresence(t1: string, t2: string, keywords: seq<string>)
    requires forall k :: 0 <= k < |keywords| ==> Contains(t1, keywords[k]) ==> Contains(t2, keywords[k])
    ensures HitCount(t1, keywords) <= HitCount(t2, keywords)
    decreases |keywords|
  {
    if keywords != [] {
      var init := keywords[..|keywords| - 1];
      assert forall k :: 0 <= k < |init| ==> init[k] == keywords[k];
      HitCountByPresence(t1, t2, init);
    }
  }

  /** Empty backstory and story give the level "low" for any keyword list
      whose keywords are longer than one character, since the scored text is
      then a single space. */
  lemma EmptyTextIsLow(keywords: seq<string>)
    requires forall k :: 0 <= k < |keywords| ==> |keywords[k]| > 1
    ensures TraitLevel("", "", keywords) == Low
  {
    var text := TraitText("", "");
    forall k | 0 <= k < |keywords| ensures !Contains(text, keywords[k]) {
      LongerNotContained(text, keywords[k]);
    }
    HitCountNone(text, keywords);
  }

  /** In particular all four traits of an empty request are "low". */
  lemma EmptyRequestIsLow()
    ensures TraitLevel("", "", ViolenceKeywords) == Low
    ensures TraitLevel("", "", RiskTakingKeywords) == Low
    ensures TraitLevel("", "", TrustworthinessKeywords) == Low
    ensures TraitLevel("", "", AuthorityRespectKeywords) == Low
  {
    EmptyTextIsLow(ViolenceKeywords);
    EmptyTextIsLow(RiskTakingKeywords);
    EmptyTextIsLow(TrustworthinessKeywords);
    EmptyTextIsLow(AuthorityRespectKeywords);
  }
}
