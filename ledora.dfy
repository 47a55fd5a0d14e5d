/** The `Ledora` game object: the word list of the session, the
    boundaries of each word, and the navigation fields that the play
    screen's methods update in place. */
module Game {
  import opened Navigation
  import SyllableColours
  import WordList
  import SessionStats

  /** Python's `s[i]`, where a negative index counts from the end. */
  function At<T>(s: seq<T>, i: int): T
    requires Indexable(i, |s|)
  {
    if i >= 0 then s[i] else s[|s| + i]
  }

  /** The figures of the results screen, or the `ZeroDivisionError` the
      pace computation raises when no time has been recorded yet (the
      syllable count is computed before it). */
  datatype Report = Report(syllables: int, stars: int) | PaceDivisionByZero(syllables: int)

  class Ledora {
    var words: seq<string>
    var positions: seq<seq<int>>
    var n: nat
    var wordIndex: int
    var countFails: nat
    var wait: bool
    var duration: real

    /** The navigation fields as one value. */
    function State(): Nav
      reads this
    {
      Nav(wordIndex, countFails, wait, duration)
    }

    /** During a session: one boundary list per word, and the cursor
        within the bounds the navigation keeps. */
    ghost predicate Valid()
      reads this
    {
      n == |words| == |positions| && Inv(State(), n)
    }

    /** `__init__` without the window and sounds: `set_states` and
        `initialize_words`. `wait` is first set by `screen_play`. */
    constructor ()
      ensures words == [] && positions == [] && n == 0
      ensures State() == Nav(-1, 0, false, 0.0)
    {
      words, positions, n := [], [], 0;
      wordIndex, countFails, wait, duration := -1, 0, false, 0.0;
    }

    /** `set_states`: the cursor before the first word, no returns, no
        time recorded. */
    method SetStates()
      modifies this`wordIndex, this`countFails, this`duration
      ensures State() == old(State()).(wordIndex := -1, countFails := 0, duration := 0.0)
    {
      wordIndex := -1;
      countFails := 0;
      duration := 0.0;
    }

    /** `screen_play` up to the first event it handles: the word list as
        `get_words` returns it, the boundaries of every word from the
        hyphenation dictionary, fresh statistics and the display flag set;
        then the display check of the first pass, which always finds the
        display time (0 after `set_states`) over and hides the word at
        session time `t0`. */
    method StartPlay(ws: seq<string>, dictionary: string -> seq<int>, t0: real)
      modifies this
      ensures words == ws && positions == WordList.GetPosition(ws, dictionary) && n == |ws|
      ensures State() == Entry(t0)
      ensures Valid()
    {
      words := ws;
      positions := WordList.GetPosition(ws, dictionary);
      n := |words|;
      SetStates();
      wait := true;
      HideWord(t0);
    }

    /** `hide_word`: the display time is over. */
    method HideWord(elapsed: real)
      modifies this`wait, this`duration
      ensures State() == Navigation.HideWord(old(State()), elapsed)
    {
      wait := false;
      duration := elapsed;
    }

    /** `next_word`: move on and show the next word in its syllable colours. */
    method NextWord(elapsed: real) returns (colours: seq<string>)
      requires Valid() && wordIndex + 1 < n
      modifies this`wordIndex, this`wait, this`duration
      ensures State() == Navigation.NextWord(old(State()), elapsed)
      ensures Valid()
      ensures SyllableColours.Painted(colours, At(words, wordIndex), At(positions, wordIndex))
    {
      wordIndex := wordIndex + 1;
      var text := At(words, wordIndex);
      var position := At(positions, wordIndex);
      colours := SyllableColours.AssignColours(text, position);
      wait := true;
      duration := elapsed;
    }

    /** `pause_word`: show the current word again, without a timer. */
    method PauseWord() returns (colours: seq<string>)
      requires Valid() && Indexable(wordIndex, n)
      modifies this`wait
      ensures State() == Navigation.PauseWord(old(State()))
      ensures SyllableColours.Painted(colours, At(words, wordIndex), At(positions, wordIndex))
    {
      var text := At(words, wordIndex);
      var position := At(positions, wordIndex);
      colours := SyllableColours.AssignColours(text, position);
      wait := false;
    }

    /** `previous_word`: step back (see `BackIndex`) and show the word
        again, counting a return. `ok` is false when the new cursor is out
        of the list and `words[word_index]` raises `IndexError`: the
        cursor has moved, nothing else has changed. */
    method PreviousWord(elapsed: real) returns (ok: bool, colours: seq<string>)
      requires Valid()
      modifies this`wordIndex, this`countFails, this`wait, this`duration
      ensures ok == Indexable(BackIndex(old(State())), n)
      ensures ok ==> State() == Navigation.PreviousWord(old(State()), elapsed) && Valid()
      ensures ok ==>
        SyllableColours.Painted(colours, At(words, wordIndex), At(positions, wordIndex))
      ensures !ok ==> State() == old(State()).(wordIndex := BackIndex(old(State())))
    {
      if wordIndex != 0 && wait {
        wordIndex := wordIndex - 1;
      }
      ok := Indexable(wordIndex, n);
      if !ok {
        colours := [];
        return;
      }
      var text := At(words, wordIndex);
      var position := At(positions, wordIndex);
      colours := SyllableColours.AssignColours(text, position);
      countFails := countFails + 1;
      wait := true;
      duration := elapsed;
    }

    /** One event of the `screen_play` loop. */
    method HandleEvent(e: Event) returns (screen: Screen)
      requires Valid()
      modifies this
      ensures (State(), screen) == Step(old(State()), n, e)
      ensures words == old(words) && positions == old(positions) && n == old(n)
      ensures screen != IndexError ==> Valid()
    {
      StepInv(State(), n, e);
      match e
      case Quit =>
        screen := Exit;
      case OtherEvent =>
        screen := Playing;
      case Timer(expired, t) =>
        if wait && expired {
          HideWord(t);
        }
        screen := Playing;
      case KeyDown(key, t) =>
        if key == Escape {
          screen := Initial;
        } else if wordIndex + 1 >= n || key == End {
          screen := Results;
        } else if key == Right {
          var _ := NextWord(t);
          screen := Playing;
        } else if key == Left {
          var ok, _ := PreviousWord(t);
          screen := if ok then Playing else IndexError;
        } else if key == Space {
          var _ := PauseWord();
          screen := Playing;
        } else {
          screen := Playing;
        }
    }

    /** The `screen_play` loop over a finite run of events, until one of
        them leaves the play screen. */
    method Play(events: seq<Event>) returns (screen: Screen)
      requires Valid()
      modifies this
      ensures (State(), screen) == Run(old(State()), n, events)
      ensures words == old(words) && positions == old(positions) && n == old(n)
    {
      var i := 0;
      screen := Playing;
      while i < |events| && screen == Playing
        invariant 0 <= i <= |events|
        invariant words == old(words) && positions == old(positions) && n == old(n)
        invariant screen == Playing ==>
          Valid() && Run(old(State()), n, events) == Run(State(), n, events[i..])
        invariant screen != Playing ==> (State(), screen) == Run(old(State()), n, events)
      {
        assert events[i..][0] == events[i] && events[i..][1..] == events[i + 1..];
        screen := HandleEvent(events[i]);
        i := i + 1;
      }
    }

    /** The figures of `screen_results`: the syllables of the words shown
        and the star score; the pace divides by the recorded duration and
        raises `ZeroDivisionError` before the stars when it is 0. */
    method ScreenResults() returns (report: Report)
      requires Valid()
      ensures report.syllables == SessionStats.SyllableSum(positions, SessionStats.ShownWords(wordIndex))
      ensures report.syllables >= wordIndex + 1
      ensures report.Report? <==> duration != 0.0
      ensures report.Report? ==> report.stars == SessionStats.Stars(countFails, n, duration)
    {
      var kpi := SessionStats.SyllableCount(positions, wordIndex);
      if duration == 0.0 {
        report := PaceDivisionByZero(kpi);
      } else {
        var s := SessionStats.StarScore(countFails, n, duration);
        report := Report(kpi, s);
      }
    }
  }
}
