/** The play screen as a state machine: a cursor into the word list, the
    number of returns, whether a word is on display, and the session
    time at the last change; the keys RIGHT, LEFT and SPACE move the
    cursor or pause, END and ESC leave the screen. */
module Navigation {

  /** The session state the play screen changes. */
  datatype Nav = Nav(wordIndex: int, countFails: nat, wait: bool, duration: real)

  datatype Key = Escape | End | Right | Left | Space | OtherKey

  /** What one pass of the play loop reacts to: a key press (with the
      seconds since the session began at that moment), the window being
      closed, any other window event (mouse movement and the like), or
      the display-timer check at the top of each pass (`expired` says
      whether the word's display time is over). */
  datatype Event =
    | KeyDown(key: Key, elapsed: real)
    | Quit
    | OtherEvent
    | Timer(expired: bool, elapsed: real)

  /** Where the play screen goes: it stays, returns to the initial menu,
      opens the results, ends the program, or dies on an `IndexError`. */
  datatype Screen = Playing | Initial | Results | Exit | IndexError

  /** Python's `words[i]` on a list of `n` words succeeds for `-n <= i < n`. */
  predicate Indexable(i: int, n: nat) {
    -(n as int) <= i < n
  }

  /** The state `set_states` leaves, with `wait` set by `screen_play`. */
  const Start: Nav := Nav(-1, 0, true, 0.0)

  /** `hide_word`: the word leaves the screen. */
  function HideWord(s: Nav, elapsed: real): (r: Nav)
    ensures !r.wait && r.wordIndex == s.wordIndex && r.countFails == s.countFails
    ensures r.duration == elapsed
  {
    s.(wait := false, duration := elapsed)
  }

  /** `pause_word`: the word stays visible (greyed) without a timer. */
  function PauseWord(s: Nav): (r: Nav)
    ensures !r.wait && r.wordIndex == s.wordIndex && r.countFails == s.countFails
    ensures r.duration == s.duration
  {
    s.(wait := false)
  }

  /** `next_word`: the cursor moves one word on and the word is shown. */
  function NextWord(s: Nav, elapsed: real): (r: Nav)
    ensures r.wait && r.wordIndex == s.wordIndex + 1 && r.countFails == s.countFails
    ensures r.duration == elapsed
  {
    s.(wordIndex := s.wordIndex + 1, wait := true, duration := elapsed)
  }

  /** The cursor after `if self.word_index and self.wait: self.word_index -= 1`:
      Python's truthiness makes any non-zero index, -1 included, step back. */
  function BackIndex(s: Nav): (i: int)
    ensures i == s.wordIndex - 1 <==> s.wordIndex != 0 && s.wait
    ensures i != s.wordIndex - 1 ==> i == s.wordIndex
  {
    if s.wordIndex != 0 && s.wait then s.wordIndex - 1 else s.wordIndex
  }

  /** `previous_word` when the word at the new cursor exists: one more
      return is counted and the word is shown again. */
  function PreviousWord(s: Nav, elapsed: real): (r: Nav)
    ensures r.countFails == s.countFails + 1 && r.wait && r.duration == elapsed
    ensures r.wordIndex == s.wordIndex - 1 <==> s.wordIndex != 0 && s.wait
    ensures r.wordIndex != s.wordIndex - 1 ==> r.wordIndex == s.wordIndex
  {
    Nav(BackIndex(s), s.countFails + 1, true, elapsed)
  }

  /** One event of the `screen_play` loop. A key press first checks ESC,
      then whether the cursor is on the last word (any key but ESC then
      opens the results), then END, RIGHT, LEFT and SPACE; other keys do
      nothing. A list index out of range raises `IndexError`, after the
      cursor has already moved. */
  function Step(s: Nav, n: nat, e: Event): (Nav, Screen) {
    match e
    case Quit => (s, Exit)
    case OtherEvent => (s, Playing)
    case Timer(expired, t) => (if s.wait && expired then HideWord(s, t) else s, Playing)
    case KeyDown(k, t) =>
      if k == Escape then (s, Initial)
      else if s.wordIndex + 1 >= n || k == End then (s, Results)
      else if k == Right then
        if Indexable(s.wordIndex + 1, n) then (NextWord(s, t), Playing)
        else (s.(wordIndex := s.wordIndex + 1), IndexError)
      else if k == Left then
        if Indexable(BackIndex(s), n) then (PreviousWord(s, t), Playing)
        else (s.(wordIndex := BackIndex(s)), IndexError)
      else if k == Space then
        if Indexable(s.wordIndex, n) then (PauseWord(s), Playing) else (s, IndexError)
      else (s, Playing)
  }

  /** The play loop over a finite run of events: it stops at the first
      event that leaves the play screen. */
  function Run(s: Nav, n: nat, events: seq<Event>): (Nav, Screen)
    decreases |events|
  {
    if events == [] then (s, Playing)
    else
      var (s', screen) := Step(s, n, events[0]);
      if screen == Playing then Run(s', n, events[1..]) else (s', screen)
  }

  /** The cursor stays below the number of words, and never goes below
      `-n` (when there are no words it stays at -1). */
  predicate Inv(s: Nav, n: nat) {
    s.wordIndex < n && (-(n as int) <= s.wordIndex || s.wordIndex == -1)
  }

  /** The state the first event of a session meets. `set_states` leaves
      the expected display time at 0, so the first pass of the play loop
      always finds the display time over and runs `hide_word` before it
      handles any event: the cursor is before the first word, nothing is
      shown, and the session time `t` is recorded. */
  function Entry(t: real): (s: Nav)
    ensures s.wordIndex == -1 && s.countFails == 0 && !s.wait && s.duration == t
  {
    HideWord(Start, t)
  }

  lemma EntryInv(n: nat, t: real)
    ensures Inv(Entry(t), n)
  {
  }

  /** One event keeps the invariant, unless it is a LEFT press with the
      cursor at `-n`, which moves the cursor to `-n - 1` and raises
      `IndexError`; no other event can raise it. Returns are counted only
      by LEFT, one per press. */
  lemma StepInv(s: Nav, n: nat, e: Event)
    requires Inv(s, n)
    ensures Step(s, n, e).1 != IndexError ==> Inv(Step(s, n, e).0, n)
    ensures Step(s, n, e).1 == IndexError ==>
      e.KeyDown? && e.key == Left && s.wordIndex == -(n as int) && Step(s, n, e).0.wordIndex == -(n as int) - 1
    ensures Step(s, n, e).0.countFails == s.countFails ||
      (e.KeyDown? && e.key == Left && Step(s, n, e).0.countFails == s.countFails + 1)
  {
  }

  /** Over any run of events from a state that keeps the invariant, the
      cursor stays below the number of words, `IndexError` can only come
      from the cursor stepping to `-n - 1`, and the number of returns
      never decreases and grows by at most one per event. */
  lemma {:induction false} RunInv(s: Nav, n: nat, events: seq<Event>)
    requires Inv(s, n)
    ensures Run(s, n, events).1 != IndexError ==> Inv(Run(s, n, events).0, n)
    ensures Run(s, n, events).1 == IndexError ==> Run(s, n, events).0.wordIndex == -(n as int) - 1
    ensures s.countFails <= Run(s, n, events).0.countFails <= s.countFails + |events|
    decreases |events|
  {
    if events != [] {
      StepInv(s, n, events[0]);
      var (s', screen) := Step(s, n, events[0]);
      if screen == Playing {
        RunInv(s', n, events[1..]);
      }
    }
  }

  /** Whatever the player presses from the start of a session, the cursor
      is always below the number of words, so the results screen always
      finds the words it sums over. */
  lemma RunFromStart(n: nat, t0: real, events: seq<Event>)
    ensures Run(Entry(t0), n, events).0.wordIndex < n
    ensures Run(Entry(t0), n, events).0.countFails <= |events|
  {
    EntryInv(n, t0);
    RunInv(Entry(t0), n, events);
  }

  /** LEFT before the first word: nothing is shown, so the cursor stays at
      -1 and the last word (`words[-1]`) is shown, counting a return. A
      second LEFT while it is shown steps back to -2, the word before it,
      when there are two words or more, and raises `IndexError` when there
      is only one. Without words any key but ESC opens the results. */
  lemma LeftAtStart(n: nat, t0: real, t: real, t': real)
    ensures n >= 1 ==> Step(Entry(t0), n, KeyDown(Left, t)) == (Nav(-1, 1, true, t), Playing)
    ensures n >= 2 ==>
      Run(Entry(t0), n, [KeyDown(Left, t), KeyDown(Left, t')]) == (Nav(-2, 2, true, t'), Playing)
    ensures n == 1 ==>
      Run(Entry(t0), n, [KeyDown(Left, t), KeyDown(Left, t')]) == (Nav(-2, 1, true, t), IndexError)
    ensures n == 0 ==> Step(Entry(t0), n, KeyDown(Left, t)) == (Entry(t0), Results)
  {
    var e := [KeyDown(Left, t), KeyDown(Left, t')];
    assert e[1..] == [KeyDown(Left, t')] && e[1..][1..] == [];
    if n >= 1 {
      var s1 := Nav(-1, 1, true, t);
      assert Run(Entry(t0), n, e) == Run(s1, n, e[1..]);
      assert Run(s1, n, e[1..]) == if n >= 2 then (Nav(-2, 2, true, t'), Playing) else (Nav(-2, 1, true, t), IndexError);
    }
  }

  /** Every clock reading carried by the events is positive. */
  predicate ClockPositive(events: seq<Event>) {
    forall i :: 0 <= i < |events| ==> (events[i].KeyDown? || events[i].Timer?) ==> events[i].elapsed > 0.0
  }

  /** Every change of the recorded duration takes an event's clock reading,
      so a positive duration stays positive over a run of positive readings. */
  lemma {:induction false} RunDurationPositive(s: Nav, n: nat, events: seq<Event>)
    requires s.duration > 0.0 && ClockPositive(events)
    ensures Run(s, n, events).0.duration > 0.0
    decreases |events|
  {
    if events != [] {
      var (s', screen) := Step(s, n, events[0]);
      if screen == Playing {
        assert ClockPositive(events[1..]) by {
          forall i | 0 <= i < |events[1..]| ensures events[1..][i] == events[i + 1] { }
        }
        RunDurationPositive(s', n, events[1..]);
      }
    }
  }

  /** Once the first pass has recorded a positive session time, the results
      screen always finds a non-zero duration to divide by. */
  lemma SessionHasDuration(n: nat, t0: real, events: seq<Event>)
    requires t0 > 0.0 && ClockPositive(events)
    ensures Run(Entry(t0), n, events).0.duration != 0.0
  {
    RunDurationPositive(Entry(t0), n, events);
  }

  /** `m` presses of the same key. */
  function Presses(m: nat, k: Key, t: real): (events: seq<Event>)
    ensures |events| == m
    ensures forall i :: 0 <= i < m ==> events[i] == KeyDown(k, t)
  {
    seq(m, _ => KeyDown(k, t))
  }

  /** RIGHT presses from the start walk the cursor through the words in
      order: after `m` of them the cursor is on word `m - 1`, shown. */
  lemma {:induction false} RightWalk(n: nat, t0: real, m: nat, t: real)
    requires 1 <= m <= n
    ensures Run(Entry(t0), n, Presses(m, Right, t)) == (Nav(m - 1, 0, true, t), Playing)
  {
    if m > 1 {
      RightWalk(n, t0, m - 1, t);
      RunAppend(Entry(t0), n, Presses(m - 1, Right, t), KeyDown(Right, t));
      assert Presses(m, Right, t) == Presses(m - 1, Right, t) + [KeyDown(Right, t)];
    } else {
      assert Presses(1, Right, t) == [KeyDown(Right, t)];
    }
  }

  /** On the last word every key but ESC opens the results. */
  lemma LastWordOpensResults(n: nat, t0: real, t: real, k: Key, t': real)
    requires n >= 1 && k != Escape
    ensures Run(Entry(t0), n, Presses(n, Right, t) + [KeyDown(k, t')]).1 == Results
  {
    RightWalk(n, t0, n, t);
    RunAppend(Entry(t0), n, Presses(n, Right, t), KeyDown(k, t'));
  }

  /** A run that stays on the play screen followed by one more event. */
  lemma {:induction false} RunAppend(s: Nav, n: nat, events: seq<Event>, e: Event)
    requires Run(s, n, events).1 == Playing
    ensures Run(s, n, events + [e]) == Step(Run(s, n, events).0, n, e)
    decreases |events|
  {
    if events == [] {
      assert events + [e] == [e];
    } else {
      var (s', screen) := Step(s, n, events[0]);
      assert (events + [e])[0] == events[0];
      assert (events + [e])[1..] == events[1..] + [e];
      RunAppend(s', n, events[1..], e);
    }
  }
}
