/** The figures of the results screen: the number of syllables read and
    the star score of the session. */
module SessionStats {

  /** Number of words shown when the cursor is at `wordIndex`: the words
      `0..wordIndex`, none while the cursor is before the first word. */
  function ShownWords(wordIndex: int): nat {
    if wordIndex >= 0 then wordIndex + 1 else 0
  }

  /** Syllables of the first `m` words: a word with `b` boundaries has
      `b + 1` syllables. */
  function SyllableSum(positions: seq<seq<int>>, m: nat): int
    requires m <= |positions|
  {
    if m == 0 then 0 else SyllableSum(positions, m - 1) + |positions[m - 1]| + 1
  }

  /** Every word has at least one syllable, and more words never mean
      fewer syllables: each extra word adds at least one. */
  lemma {:induction false} SyllableSumGrows(positions: seq<seq<int>>, m: nat, m': nat)
    requires m <= m' <= |positions|
    ensures SyllableSum(positions, m) + (m' - m) <= SyllableSum(positions, m')
  {
    if m < m' {
      SyllableSumGrows(positions, m, m' - 1);
    }
  }

  /** The `kpi` loop of `screen_results`: the syllables of the words shown
      so far. */
  method SyllableCount(positions: seq<seq<int>>, wordIndex: int) returns (kpi: int)
    requires wordIndex < |positions|
    ensures kpi == SyllableSum(positions, ShownWords(wordIndex))
    ensures kpi >= ShownWords(wordIndex)
  {
    kpi := 0;
    var i := 0;
    while i < wordIndex + 1
      invariant 0 <= i <= ShownWords(wordIndex)
      invariant kpi == SyllableSum(positions, i)
    {
      kpi := kpi + |positions[i]| + 1;
      i := i + 1;
    }
    SyllableSumGrows(positions, 0, i);
  }

  /** The star rule of `screen_results`: five stars, one off for any
      return, one off for returns above 30% of the words (`count_fails >
      n * 0.3`, here in integers), one off for a session longer than one
      second per word and one more for longer than two. The score is
      always between one and five stars; five exactly for a session
      without returns that took at most a second per word; one exactly
      when all four rules fire. */
  function Stars(countFails: nat, n: nat, duration: real): (s: int)
    ensures 1 <= s <= 5
    ensures s == 5 <==> countFails == 0 && duration <= n as real
    ensures s == 1 <==> 10 * countFails > 3 * n && duration > (2 * n) as real
  {
    5 - (if countFails > 0 then 1 else 0)
      - (if 10 * countFails > 3 * n then 1 else 0)
      - (if duration > n as real then 1 else 0)
      - (if duration > (2 * n) as real then 1 else 0)
  }

  /** More returns or a longer session never earn more stars, and a
      session longer than two seconds per word loses two stars for it. */
  lemma StarsMonotone(countFails: nat, countFails': nat, n: nat, duration: real, duration': real)
    requires countFails <= countFails' && duration <= duration'
    ensures Stars(countFails', n, duration') <= Stars(countFails, n, duration)
    ensures duration > (2 * n) as real ==> Stars(countFails, n, duration) <= 3
  {
  }

  /** The star score as `screen_results` computes it, one rule at a time. */
  method StarScore(countFails: nat, n: nat, duration: real) returns (s: int)
    ensures s == Stars(countFails, n, duration)
  {
    s := 5;
    if countFails > 0 {
      s := s - 1;
    }
    if 10 * countFails > 3 * n {
      s := s - 1;
    }
    if duration > n as real {
      s := s - 1;
    }
    if duration > (2 * n) as real {
      s := s - 1;
    }
  }
}
