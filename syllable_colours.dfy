/** The colour of each character of a displayed word: the renderer walks the
    syllable boundaries of the word and paints every character of one
    syllable in the same colour, alternating between two colours. */
module SyllableColours {

  /** The two colours, indexed by the parity of the syllable number. */
  const PossibleColours: seq<string> := ["lightgrey", "steelblue3"]

  /** The cursor after the first `i` bounds: the largest of 0 and
      `bounds[0..i]`. */
  function PrefixMax(bounds: seq<int>, i: nat): (m: nat)
    requires i <= |bounds|
    ensures forall j :: 0 <= j < i ==> bounds[j] <= m
    ensures m == 0 || exists j :: 0 <= j < i && bounds[j] == m
  {
    if i == 0 then 0
    else
      var m := PrefixMax(bounds, i - 1);
      if bounds[i - 1] > m then bounds[i - 1] else m
  }

  /** The syllable character `k` falls in: the least index `j` with
      `bounds[j] > k` (or `|bounds|` if there is none). */
  function Segment(bounds: seq<int>, k: int): (j: nat)
    ensures j <= |bounds|
    ensures forall i :: 0 <= i < j ==> bounds[i] <= k
    ensures j < |bounds| ==> bounds[j] > k
  {
    if |bounds| == 0 then 0
    else if bounds[0] > k then 0
    else 1 + Segment(bounds[1..], k)
  }

  /** Number of boundaries at or before character `k`. */
  function CountAtMost(positions: seq<int>, k: int): (c: nat)
    ensures c <= |positions|
  {
    if |positions| == 0 then 0
    else (if positions[0] <= k then 1 else 0) + CountAtMost(positions[1..], k)
  }

  /** The count is 0 exactly when every boundary lies after `k`, and is the
      full count exactly when none does. */
  lemma {:induction false} CountAtMostExtremes(positions: seq<int>, k: int)
    ensures CountAtMost(positions, k) == 0 <==> forall i :: 0 <= i < |positions| ==> positions[i] > k
    ensures CountAtMost(positions, k) == |positions| <==>
      forall i :: 0 <= i < |positions| ==> positions[i] <= k
  {
    if |positions| > 0 {
      var rest := positions[1..];
      CountAtMostExtremes(rest, k);
      assert forall i :: 1 <= i < |positions| ==> positions[i] == rest[i - 1];
    }
  }

  predicate NonDecreasing(s: seq<int>) {
    forall i, j :: 0 <= i < j < |s| ==> s[i] <= s[j]
  }

  predicate StrictlyIncreasing(s: seq<int>) {
    forall i, j :: 0 <= i < j < |s| ==> s[i] < s[j]
  }

  /** The boundaries a hyphenation dictionary hands out for a word of
      length `len`: strictly increasing and strictly inside the word. */
  predicate WellFormed(positions: seq<int>, len: int) {
    StrictlyIncreasing(positions) &&
    forall i :: 0 <= i < |positions| ==> 1 <= positions[i] <= len - 1
  }

  /** The colour of character `k` of a word of length `len` whose
      boundaries are `positions`: the colour of its syllable's parity. */
  function ColourAt(positions: seq<int>, len: int, k: int): string {
    PossibleColours[Segment(positions + [len], k) % 2]
  }

  /** The first `|colours|` characters are painted in their syllable's colour. */
  predicate PaintedUpTo(colours: seq<string>, positions: seq<int>, len: int) {
    forall k :: 0 <= k < |colours| ==> colours[k] == ColourAt(positions, len, k)
  }

  /** `colours` is what the renderer paints for `text` with boundaries
      `positions`: as many colours as the largest of 0, the text length
      and any boundary, character `k` in the colour of its syllable. */
  predicate Painted(colours: seq<string>, text: string, positions: seq<int>) {
    |colours| == PrefixMax(positions + [|text|], |positions| + 1) &&
    PaintedUpTo(colours, positions, |text|)
  }

  /** The colour loop of `write_text_multicolor`: the bounds are the
      boundary list followed by the text length; for the `i`-th bound
      the characters from the cursor up to (not including) that bound
      get colour `i % 2`, and the cursor follows. A bound that is not
      past the cursor paints nothing. */
  method AssignColours(text: string, positions: seq<int>) returns (colours: seq<string>)
    ensures Painted(colours, text, positions)
    ensures positions == [] ==>
      |colours| == |text| && forall k :: 0 <= k < |colours| ==> colours[k] == "lightgrey"
  {
    var bounds := positions + [|text|];
    var startIndex := 0;
    colours := [];
    var i := 0;
    while i < |bounds|
      invariant 0 <= i <= |bounds|
      invariant startIndex == PrefixMax(bounds, i) == |colours|
      invariant PaintedUpTo(colours, positions, |text|)
    {
      var endIndex := bounds[i];
      ghost var cursor := startIndex;
      var j := startIndex;
      while j < endIndex
        invariant cursor <= j == startIndex == |colours|
        invariant j <= endIndex || j == cursor
        invariant PaintedUpTo(colours, positions, |text|)
      {
        PaintNext(colours, positions, |text|, i, PossibleColours[i % 2]);
        colours := colours + [PossibleColours[i % 2]];
        startIndex := startIndex + 1;
        j := j + 1;
      }
      i := i + 1;
    }
    if positions == [] {
      NoBoundaries(|text|);
    }
  }

  /** One more character painted in the colour of bound `i`, when that
      character lies between the cursor of the first `i` bounds and
      bound `i`. */
  lemma PaintNext(colours: seq<string>, positions: seq<int>, len: int, i: nat, c: string)
    requires PaintedUpTo(colours, positions, len)
    requires i < |positions| + 1 && c == PossibleColours[i % 2]
    requires PrefixMax(positions + [len], i) <= |colours| < (positions + [len])[i]
    ensures PaintedUpTo(colours + [c], positions, len)
  {
    InSegment(positions + [len], i, |colours|);
    var r := colours + [c];
    forall k | 0 <= k < |r| ensures r[k] == ColourAt(positions, len, k) {
      if k < |colours| {
        assert r[k] == colours[k];
      }
    }
  }

  /** A character past the cursor of the first `i` bounds and before bound
      `i` lies in syllable `i`. */
  lemma InSegment(bounds: seq<int>, i: nat, k: int)
    requires i < |bounds| && PrefixMax(bounds, i) <= k < bounds[i]
    ensures Segment(bounds, k) == i
  {
  }

  /** Without boundaries the whole word is one syllable. */
  lemma NoBoundaries(len: nat)
    ensures PrefixMax([] + [len], 1) == len
    ensures forall k :: 0 <= k < len ==> ColourAt([], len, k) == "lightgrey"
  {
    forall k | 0 <= k < len ensures ColourAt([], len, k) == "lightgrey" {
      assert Segment([] + [len], k) == 0;
    }
  }

  /** For sorted boundaries inside the text, the bound list ends with the
      text length, so the loop paints exactly one colour per character,
      and character `k` lies in syllable number "boundaries at or before k". */
  lemma {:induction false} SortedSegments(positions: seq<int>, len: nat, k: int)
    requires NonDecreasing(positions)
    requires forall i :: 0 <= i < |positions| ==> positions[i] <= len
    requires k < len
    ensures Segment(positions + [len], k) == CountAtMost(positions, k)
  {
    if |positions| > 0 {
      var b := positions + [len];
      if positions[0] > k {
        AllAbove(positions, k);
      } else {
        assert b[1..] == positions[1..] + [len];
        SortedSegments(positions[1..], len, k);
      }
    }
  }

  /** In a sorted list whose first element exceeds `k`, no element is at
      or below `k`. */
  lemma {:induction false} AllAbove(positions: seq<int>, k: int)
    requires NonDecreasing(positions)
    requires |positions| > 0 && positions[0] > k
    ensures CountAtMost(positions, k) == 0
  {
    if |positions| > 1 {
      assert positions[1] >= positions[0];
      AllAbove(positions[1..], k);
    }
  }

  /** With bounds all at most the text length, the cursor ends at the
      text length. */
  lemma {:induction false} LengthIsText(positions: seq<int>, len: nat)
    requires forall i :: 0 <= i < |positions| ==> positions[i] <= len
    ensures PrefixMax(positions + [len], |positions| + 1) == len
  {
    var b := positions + [len];
    var m := PrefixMax(b, |positions|);
    assert m == 0 || exists j :: 0 <= j < |positions| && b[j] == m;
    if m != 0 {
      var j :| 0 <= j < |positions| && b[j] == m;
      assert positions[j] == m;
    }
  }

  /** Moving one character to the right passes a boundary exactly when
      that character is one of the (strictly increasing) boundaries. */
  lemma {:induction false} CountStep(positions: seq<int>, k: int)
    requires StrictlyIncreasing(positions)
    ensures CountAtMost(positions, k) ==
      CountAtMost(positions, k - 1) + (if k in positions then 1 else 0)
  {
    if |positions| > 0 {
      var rest := positions[1..];
      CountStep(rest, k);
      if positions[0] == k {
        assert k !in rest by {
          forall i | 0 <= i < |rest| ensures rest[i] != k {
            assert rest[i] == positions[i + 1];
          }
        }
      } else {
        assert k in positions <==> k in rest by {
          assert positions == [positions[0]] + rest;
        }
      }
    }
  }

  /** One step of the flip property: characters `k - 1` and `k` differ in
      colour exactly when `k` is a boundary. */
  lemma FlipAt(positions: seq<int>, len: nat, k: int)
    requires WellFormed(positions, len)
    requires 1 <= k < len
    ensures ColourAt(positions, len, k) != ColourAt(positions, len, k - 1) <==> k in positions
  {
    assert NonDecreasing(positions);
    SortedSegments(positions, len, k);
    SortedSegments(positions, len, k - 1);
    CountStep(positions, k);
  }

  /** For boundaries a dictionary produces, the loop emits one colour per
      character, the colour of character `k` is given by the number of
      boundaries at or before `k`, and two neighbouring characters differ
      in colour exactly when a boundary falls between them. */
  lemma ColoursOfWellFormed(positions: seq<int>, len: nat)
    requires WellFormed(positions, len)
    ensures PrefixMax(positions + [len], |positions| + 1) == len
    ensures forall k :: 0 <= k < len ==>
      ColourAt(positions, len, k) == PossibleColours[CountAtMost(positions, k) % 2]
    ensures forall k :: 1 <= k < len ==>
      (ColourAt(positions, len, k) != ColourAt(positions, len, k - 1) <==> k in positions)
  {
    LengthIsText(positions, len);
    assert NonDecreasing(positions);
    forall k | 0 <= k < len
      ensures ColourAt(positions, len, k) == PossibleColours[CountAtMost(positions, k) % 2]
    {
      SortedSegments(positions, len, k);
    }
    forall k | 1 <= k < len
      ensures ColourAt(positions, len, k) != ColourAt(positions, len, k - 1) <==> k in positions
    {
      FlipAt(positions, len, k);
    }
  }
}
