/** Claim segmentation (the `rawClaims` line of `simulateAnalysis` in
    main.js): the backstory is split at every '.', '!' and '?', fragments whose
    trimmed length is at most 10 are dropped, and the rest are trimmed. */
module Claims {
  import opened Text

  /** The sentence-ending characters the backstory is split at. */
  const ClaimDelimiters: set<char> := {'.', '!', '?'}

  /** A fragment is kept when it is longer than 10 characters once trimmed. */
  predicate LongEnough(fragment: string)
  {
    |Trim(fragment)| > 10
  }

  /** The pieces of the backstory between sentence-ending characters. */
  function Fragments(backstory: string): (fragments: seq<string>)
    ensures |fragments| >= 1
    ensures forall k :: 0 <= k < |fragments| ==> NoneIn(fragments[k], ClaimDelimiters)
  {
    Split(backstory, ClaimDelimiters)
  }

  /** Which fragments pass the length test. */
  function LongMask(fragments: seq<string>): (mask: seq<bool>)
    ensures |mask| == |fragments|
    ensures forall i :: 0 <= i < |fragments| ==> mask[i] == LongEnough(fragments[i])
  {
    seq(|fragments|, i requires 0 <= i < |fragments| => LongEnough(fragments[i]))
  }

  /** The elements of `xs` whose mask entry is set, in their original
      order. */
  function Select(xs: seq<string>, mask: seq<bool>): (kept: seq<string>)
    requires |mask| == |xs|
    ensures |kept| <= |xs|
    decreases |xs|
  {
    if xs == [] then []
    else (if mask[0] then [xs[0]] else []) + Select(xs[1..], mask[1..])
  }

  /** The positions whose mask entry is set. */
  ghost function Positions(mask: seq<bool>): seq<nat>
    decreases |mask|
  {
    if mask == [] then []
    else (if mask[0] then [0] else []) + Shift(Positions(mask[1..]))
  }

  /** Every position moved one place to the right. */
  ghost function Shift(positions: seq<nat>): (shifted: seq<nat>)
    ensures |shifted| == |positions|
    ensures forall j :: 0 <= j < |positions| ==> shifted[j] == positions[j] + 1
  {
    if positions == [] then [] else [positions[0] + 1] + Shift(positions[1..])
  }

  /** Selected element `j` is the element at position `idx[j]`, whose mask
      entry is set. */
  lemma {:induction false} SelectMatch(xs: seq<string>, mask: seq<bool>)
    requires |mask| == |xs|
    ensures var idx, kept := Positions(mask), Select(xs, mask);
      && |idx| == |kept|
      && (forall j :: 0 <= j < |idx| ==> idx[j] < |xs| && mask[idx[j]] && kept[j] == xs[idx[j]])
    decreases |xs|
  {
    if xs != [] {
      var tail, tailMask := xs[1..], mask[1..];
      SelectMatch(tail, tailMask);
      var rest := Positions(tailMask);
      var shifted := Shift(rest);
      var head := if mask[0] then [0] else [];
      var headKept := if mask[0] then [xs[0]] else [];
      assert Positions(mask) == head + shifted;
      assert Select(xs, mask) == headKept + Select(tail, tailMask);
      forall j | 0 <= j < |shifted|
        ensures mask[shifted[j]] && xs[shifted[j]] == Select(tail, tailMask)[j]
      {
        assert tail[rest[j]] == xs[rest[j] + 1] && tailMask[rest[j]] == mask[rest[j] + 1];
      }
    }
  }

  /** The positions strictly increase, so the order of the elements is
      kept. */
  lemma {:induction false} PositionsIncrease(mask: seq<bool>)
    ensures forall j, j' :: 0 <= j < j' < |Positions(mask)| ==> Positions(mask)[j] < Positions(mask)[j']
    decreases |mask|
  {
    if mask != [] {
      PositionsIncrease(mask[1..]);
      var rest := Positions(mask[1..]);
      var head := if mask[0] then [0] else [];
      var idx := head + Shift(rest);
      assert Positions(mask) == idx;
      forall j, j' | 0 <= j < j' < |idx| ensures idx[j] < idx[j'] {
        if j < |head| {
          assert idx[j] == 0 && idx[j'] == rest[j' - |head|] + 1;
        } else {
          assert idx[j] == rest[j - |head|] + 1 && idx[j'] == rest[j' - |head|] + 1;
        }
      }
    }
  }

  /** No position whose mask entry is set is left out. */
  lemma {:induction false} PositionsComplete(mask: seq<bool>)
    ensures forall i :: 0 <= i < |mask| && mask[i] ==> i in Positions(mask)
    decreases |mask|
  {
    if mask != [] {
      var tailMask := mask[1..];
      PositionsComplete(tailMask);
      var rest := Positions(tailMask);
      var shifted := Shift(rest);
      var head := if mask[0] then [0] else [];
      assert Positions(mask) == head + shifted;
      forall i | 0 <= i < |mask| && mask[i] ensures i in Positions(mask) {
        if i > 0 {
          assert tailMask[i - 1] == mask[i];
          var j :| 0 <= j < |rest| && rest[j] == i - 1;
          assert shifted[j] == i;
        }
      }
    }
  }

  /** `.filter(f => f.trim().length > 10)`: the long-enough fragments, in
      their original order. */
  function KeepLong(fragments: seq<string>): (kept: seq<string>)
    ensures |kept| <= |fragments|
  {
    Select(fragments, LongMask(fragments))
  }

  /** The positions in `fragments` of the fragments `KeepLong` keeps. */
  ghost function KeptIndices(fragments: seq<string>): seq<nat>
  {
    Positions(LongMask(fragments))
  }

  /** `KeepLong` is exactly the order-preserving selection of the long
      fragments: kept fragment `j` is the long fragment at position `idx[j]`,
      positions increase, and no long fragment is skipped. */
  lemma KeepLongSelects(fragments: seq<string>)
    ensures var idx, kept := KeptIndices(fragments), KeepLong(fragments);
      && |idx| == |kept|
      && (forall j :: 0 <= j < |idx| ==> idx[j] < |fragments| && LongEnough(fragments[idx[j]]) && kept[j] == fragments[idx[j]])
      && (forall j, j' :: 0 <= j < j' < |idx| ==> idx[j] < idx[j'])
      && (forall i :: 0 <= i < |fragments| && LongEnough(fragments[i]) ==> i in idx)
  {
    var mask := LongMask(fragments);
    SelectMatch(fragments, mask);
    PositionsIncrease(mask);
    PositionsComplete(mask);
  }

  /** The claims of a backstory: every long-enough fragment, trimmed. */
  function Segment(backstory: string): (claims: seq<string>)
    ensures forall k :: 0 <= k < |claims| ==> |claims[k]| > 10 && IsTrimmed(claims[k])
  {
    var fragments := Fragments(backstory);
    var kept := KeepLong(fragments);
    KeepLongSelects(fragments);
    seq(|kept|, i requires 0 <= i < |kept| => Trim(kept[i]))
  }

  /** Claims come in the order of their fragments: claim `j` is the trimmed
      fragment at position `idx[j]`, positions strictly increase, and no long
      fragment is skipped. */
  lemma SegmentInOrder(backstory: string)
    ensures var fragments, idx := Fragments(backstory), KeptIndices(Fragments(backstory));
      && |Segment(backstory)| == |idx|
      && (forall j :: 0 <= j < |idx| ==> idx[j] < |fragments| && Segment(backstory)[j] == Trim(fragments[idx[j]]))
      && (forall j, j' :: 0 <= j < j' < |idx| ==> idx[j] < idx[j'])
      && (forall i :: 0 <= i < |fragments| && LongEnough(fragments[i]) ==> i in idx)
  {
    KeepLongSelects(Fragments(backstory));
  }

  /** A backstory yields no claims exactly when none of its fragments is
      longer than 10 characters once trimmed. */
  lemma SegmentEmpty(backstory: string)
    ensures var fragments := Fragments(backstory);
      Segment(backstory) == [] <==> forall i :: 0 <= i < |fragments| ==> !LongEnough(fragments[i])
  {
    var fragments := Fragments(backstory);
    KeepLongSelects(fragments);
    var idx := KeptIndices(fragments);
    if Segment(backstory) != [] {
      assert LongEnough(fragments[idx[0]]);
    }
  }

  /** Claim `k` is some fragment, trimmed. */
  lemma SegmentClaimSource(backstory: string, k: nat) returns (i: nat)
    requires k < |Segment(backstory)|
    ensures i < |Fragments(backstory)| && Segment(backstory)[k] == Trim(Fragments(backstory)[i])
  {
    KeepLongSelects(Fragments(backstory));
    i := KeptIndices(Fragments(backstory))[k];
  }

  /** Each claim is a substring of the backstory and holds no
      sentence-ending character. */
  lemma SegmentClaimsInBackstory(backstory: string, k: nat)
    requires k < |Segment(backstory)|
    ensures Contains(backstory, Segment(backstory)[k])
    ensures NoneIn(Segment(backstory)[k], ClaimDelimiters)
  {
    var i := SegmentClaimSource(backstory, k);
    var f := Fragments(backstory)[i];
    SplitPieceContained(backstory, ClaimDelimiters, i);
    TrimContained(f);
    ContainsTransitive(backstory, f, Trim(f));
    TrimKeepsNoneIn(f, ClaimDelimiters);
  }

  /** Segmenting a claim again gives back exactly that claim. */
  lemma SegmentClaimAgain(backstory: string, k: nat)
    requires k < |Segment(backstory)|
    ensures Segment(Segment(backstory)[k]) == [Segment(backstory)[k]]
  {
    var claim := Segment(backstory)[k];
    SegmentClaimsInBackstory(backstory, k);
    SplitFree(claim, ClaimDelimiters);
    TrimmedIsFixed(claim);
    assert KeepLong([claim]) == [claim];
  }
}
