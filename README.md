# Ledora — a Dafny model of the reading game's core

Ledora is a syllable-reading game. The player loads a text, which becomes a
list of words. The game then shows one word at a time, with each syllable
in alternating colours, for a limited time. The player steps through
the list with the arrow keys. RIGHT moves on. LEFT goes back and counts as a
"return". SPACE pauses on the current word. END or the last word opens a
results screen, which shows the syllables read and a score of one to
five stars.

This project models that core in five modules:

- `SyllableColours` (`syllable_colours.dfy`) covers the colour loop of
  `write_text_multicolor`. The loop turns a word and its hyphenation
  boundaries into one colour per character.
- `WordList` (`word_list.dfy`) covers the text normalisation and splitting of
  `get_words`, and `get_position`, which asks the hyphenation dictionary for
  each word's boundaries.
- `SessionStats` (`session_stats.dfy`) covers the syllable count and the star
  rule of `screen_results`.
- `Navigation` (`navigation.dfy`) models the play screen as a state machine
  over a pure `Nav` value: one `Step` per event and `Run` over a finite
  sequence of events. It also holds the invariants and reachability lemmas
  about that machine.
- `Game` (`ledora.dfy`) holds the `Ledora` class. Its fields are the word
  list, the boundary lists, `n`, `wordIndex`, `countFails`, `wait` and
  `duration`. Its methods update those fields in place, as the Python methods
  do. Each method is proved against the matching function of `Navigation`,
  `SyllableColours` or `SessionStats`.

Python semantics the model states explicitly:

- `words[i]` accepts negative indices from `-n` to `-1` (`Navigation.Indexable`,
  `Game.At`). An index out of range ends the screen with `IndexError`.
- `if self.word_index and self.wait` tests the truthiness of the index
  (`Navigation.BackIndex`). Before the first word nothing is shown, so
  LEFT keeps the cursor at `-1`: it shows the last word (`words[-1]`) and
  counts a return. A second LEFT while that word is shown steps back to
  `-2`, the word before it. With a single word that second LEFT raises
  `IndexError` (`Navigation.LeftAtStart`).
- `kpi / self.duration` raises `ZeroDivisionError` when no time has been
  recorded (`Game.Report.PaceDivisionByZero`).
- `count_fails > n*0.3` is compared in exact integers as `10 * countFails > 3 * n`.
- `set_states` leaves the expected display time at 0. So the first pass of
  the play loop always hides the word before it handles an event, and
  the first key meets `Navigation.Entry` (cursor -1, nothing shown, a
  session time recorded).

Clock readings are parameters: `elapsed` is the seconds since the session
began, and `expired` says whether the word's display time is over. The
hyphenation dictionary is a function parameter `string -> seq<int>`.

## Model

| member | source | states |
|---|---|---|
| SyllableColours.AssignColours | ledora.py:351-357 | The colour list has as many entries as the largest of 0, the text length and every boundary. Character `k` gets the colour of the syllable it falls in. Without boundaries every character is "lightgrey". |
| SyllableColours.PrefixMax | ledora.py:351-357 | After the first `i` bounds, the cursor `start_index` is at least every one of them and equals one of them or 0. |
| SyllableColours.Segment | ledora.py:354-356 | Character `k` is painted during the first bound that exceeds it: every earlier bound is at most `k`. |
| SyllableColours.NoBoundaries | ledora.py:352-356 | A word without boundaries is one syllable: all its characters are "lightgrey". |
| SyllableColours.LengthIsText | ledora.py:354-357 | When no boundary exceeds the text length, the loop paints exactly one colour per character. |
| SyllableColours.CountAtMostExtremes | ledora.py:354-356 | The boundary count at `k` is 0 exactly when every boundary lies after `k`, and is the full count exactly when none does. |
| SyllableColours.SortedSegments | ledora.py:354-356 | For sorted boundaries within the word, the syllable of character `k` is the number of boundaries at or before `k`. |
| SyllableColours.CountStep | ledora.py:354-356 | For strictly increasing boundaries, moving one character right passes one more boundary exactly when that character is a boundary. |
| SyllableColours.FlipAt | ledora.py:354-356 | For dictionary-shaped boundaries, characters `k-1` and `k` differ in colour if and only if `k` is a boundary. |
| SyllableColours.ColoursOfWellFormed | ledora.py:351-357 | For dictionary-shaped boundaries: one colour per character; the colour of `k` alternates with the boundary count at `k`; neighbouring colours differ if and only if a boundary lies between them. |
| WordList.ReplaceChar | ledora.py:294 | `replace` keeps the length and swaps exactly the matching characters. |
| WordList.DeleteChar | ledora.py:294 | Deleting `c` removes every `c` and keeps every other character as often as it occurs (equal multisets with `c` dropped). |
| WordList.DeleteAppend | ledora.py:294 | Deleting distributes over concatenation, so the kept characters stay in order. |
| WordList.Separate | ledora.py:294 | After the first two replacements no line break or full stop is left. |
| WordList.CollapseSpaces | ledora.py:295 | `re.sub(' +', ' ')` leaves no two neighbouring spaces. It keeps the first and last character and the same set of non-space characters. |
| WordList.CollapseFixesNormal | ledora.py:295 | A text without double spaces is unchanged. |
| WordList.CollapseIdempotent | ledora.py:295 | Collapsing twice equals collapsing once. |
| WordList.CollapseOnlyDropsSpaces | ledora.py:295 | Only spaces are removed: the non-space characters stay in the same order. |
| WordList.CollapseKeepsWords | ledora.py:295-297 | Collapsing never merges or splits words: the non-empty pieces of the split are the same before and after. |
| WordList.Split | ledora.py:297 | `split(" ")` gives one more piece than there are spaces, and no piece contains a space. |
| WordList.JoinSplit | ledora.py:297 | Joining the pieces with single spaces gives the text back. |
| WordList.SplitJoin | ledora.py:297 | Splitting a join of space-free pieces gives the pieces back. |
| WordList.SplitEnds | ledora.py:297 | The first piece is empty if and only if the text is empty or starts with a space. The last piece is empty if and only if the text is empty or ends with a space. |
| WordList.SplitInterior | ledora.py:295-297 | Without double spaces, only the first and the last piece can be empty. |
| WordList.Normalise | ledora.py:294-295 | The normalised text has no line break, full stop or comma, and no double space. |
| WordList.CommaIsDeleted | ledora.py:294-295 | A comma glues its neighbours: `a,b` normalises like `ab`. |
| WordList.SeparatorsAreSpaces | ledora.py:294-295 | A line break or a full stop separates like a space: `a.b` normalises like `a b`. |
| WordList.GetWords | ledora.py:294-297 | At least one word. No word holds a space, line break, full stop or comma. Only the first and the last word can be empty. Joining the words with spaces gives the normalised text. |
| WordList.GetWordsEnds | ledora.py:294-297 | The first (last) word is empty if and only if the normalised text is empty or starts (ends) with a space. |
| WordList.GetPosition | ledora.py:310-311 | One boundary list per word, index-aligned: entry `i` is the dictionary's boundaries for word `i`. |
| SessionStats.SyllableCount | ledora.py:490-492 | The `kpi` loop sums boundaries+1 over the words shown (none while the cursor is before the first word). The sum is at least the number of words shown. |
| SessionStats.SyllableSumGrows | ledora.py:490-492 | Every word adds at least one syllable, so more words shown never means fewer syllables. |
| SessionStats.Stars | ledora.py:512-523 | Between 1 and 5 stars. 5 if and only if there was no return and at most a second per word. 1 if and only if returns exceed 30% of the words and the session took more than two seconds per word. |
| SessionStats.StarsMonotone | ledora.py:512-523 | More returns or a longer session never give more stars. Over two seconds per word gives at most 3 stars. |
| SessionStats.StarScore | ledora.py:512-523 | The step-by-step decrements give exactly `Stars`. |
| Navigation.HideWord | ledora.py:195-197 | Hiding clears `wait`, records the session time as the duration, and leaves the cursor and the returns alone. |
| Navigation.PauseWord | ledora.py:229-232 | Pausing clears `wait` and leaves the cursor, the returns and the duration alone. |
| Navigation.NextWord | ledora.py:207-215 | The cursor moves one word on, `wait` becomes true, the duration becomes the session time, the returns are unchanged. |
| Navigation.BackIndex | ledora.py:245-246 | The cursor steps back by one if and only if it is non-zero (Python truthiness, so -1 too) and the word is shown. Otherwise it stays. |
| Navigation.PreviousWord | ledora.py:245-253 | One more return is counted, `wait` becomes true and the duration becomes the session time. The cursor steps back exactly under the `BackIndex` condition. |
| Navigation.Entry | ledora.py:560-572 | The first event of a session meets the cursor at -1, no returns, nothing shown, and the session time of the first pass as the duration. |
| Navigation.EntryInv | ledora.py:560-572 | The state of the first event satisfies the navigation invariant for any number of words. |
| Navigation.StepInv | ledora.py:573-584 | From a state within bounds, every event keeps the cursor in `[-n, n)` (or at -1 when there are no words). `IndexError` comes only from LEFT at `-n`, which moves the cursor to `-n-1`. Returns grow only on LEFT, by one. |
| Navigation.RunInv | ledora.py:567-587 | Over any event run the invariant holds until the screen is left. `IndexError` leaves the cursor at `-n-1`. The returns grow by at most one per event. |
| Navigation.RunFromStart | ledora.py:556-587 | From the start of a session the cursor always stays below `n`, and the returns never exceed the number of events. |
| Navigation.LeftAtStart | ledora.py:245-253 | The first LEFT keeps the cursor at -1 (the last word), shown, with one return. A second LEFT reaches -2 with two returns when there are two or more words, and raises `IndexError` when there is one. Without words the key opens the results. |
| Navigation.RunDurationPositive | ledora.py:195-253 | Every change of the duration takes an event's clock reading, so a positive duration stays positive over any run of positive readings. |
| Navigation.SessionHasDuration | ledora.py:494 | Once the first pass has recorded a positive session time, the results screen never meets a zero duration, given positive clock readings. |
| Navigation.RightWalk | ledora.py:579-580 | `m` RIGHT presses from the first event's state show word `m-1`, with no return counted and the play screen still open. |
| Navigation.LastWordOpensResults | ledora.py:577-578 | After walking to the last word, every key except ESC opens the results. |
| Navigation.RunAppend | ledora.py:567-573 | A run that stays on the play screen, followed by one more event, is that event applied to the run's state. |
| Game.Ledora.constructor | ledora.py:95-111 | A new game has no words and no boundaries, `n` is 0, the cursor is -1, with no returns and no time recorded. |
| Game.Ledora.SetStates | ledora.py:153-158 | The cursor is reset to -1, the returns to 0 and the duration to 0. `wait` is untouched. |
| Game.Ledora.StartPlay | ledora.py:556-572 | The game holds the given words, their dictionary boundaries and `n` equal to the word count. After the first pass's display check the fields are `Navigation.Entry` of the session time. The class invariant holds. |
| Game.Ledora.HideWord | ledora.py:190-197 | The fields become `Navigation.HideWord` of the old state. |
| Game.Ledora.NextWord | ledora.py:199-218 | The fields become `Navigation.NextWord` of the old state. The invariant is kept. The colours returned are those painted for the new word. |
| Game.Ledora.PauseWord | ledora.py:221-234 | The fields become `Navigation.PauseWord` of the old state. The colours are those painted for the current word. |
| Game.Ledora.PreviousWord | ledora.py:236-255 | `ok` holds if and only if the stepped-back cursor indexes the list. If it does, the fields become `Navigation.PreviousWord` and the word is repainted. If not, only the cursor has moved (`IndexError`). |
| Game.Ledora.HandleEvent | ledora.py:573-587 | One event moves the fields and chooses the next screen exactly as `Navigation.Step` does. The words are left alone. The invariant holds unless the screen is `IndexError`. |
| Game.Ledora.Play | ledora.py:567-587 | The event loop ends in the state and screen `Navigation.Run` gives for the same events. |
| Game.Ledora.ScreenResults | ledora.py:490-523 | The syllable count is the sum over the words shown and is at least the number of words shown. There is a star report if and only if the duration is non-zero (otherwise `ZeroDivisionError`). Its stars are `Stars` of the session. |

## Left out

- Rendering (`cls`, the per-glyph blitting after the colour loop at ledora.py:359-366, fonts, titles, countdown, `draw_progress`) is drawing with pygame. Only the colour each character receives is modelled.
- The `Button` class and the menu screens (`screen_initial`, instructions, language and kind choices) are user interface. Leaving the play screen for them is modelled as the `Initial` screen value.
- Sounds are output only.
- Reading the text from files or the clipboard (ledora.py:274-292), `resource_path`/`asset_item_path` and the error message shown when loading fails are input/output. `GetWords` takes the loaded text as a parameter.
- `shuffle(words)` (ledora.py:298-299) is randomness. `Game.Ledora.StartPlay` takes the word list `get_words` returns, in whatever order that is.
- `pyphen` is a foreign library. Its `positions` is the `dictionary` parameter. `SyllableColours.WellFormed` states what its results are assumed to look like in the lemmas that need it.
- `datetime.now()`, `check_word_still_shown` and `expected_duration` depend on the clock. They become the `elapsed` and `expired` fields of the events.
- The value of `pace` and the minute arithmetic are floating point. Only the `ZeroDivisionError` that a zero duration raises is modelled.
- The `lock` flag is never true when it is tested: the program is single-threaded and every method clears it before returning. It is not modelled.
- `while True` over `pg.event.get()` is modelled as a finite sequence of events. The first pass's display check is part of `Game.Ledora.StartPlay`. The checks of later passes are `Timer` events that may occur between any two key events. This is more general than once per batch, since the batching of events is not modelled.
- `screen_initial`, `screen_results` and `exit()` are called from inside the loop and never come back to it in the model. `Run` ends at the first event that leaves the play screen.
- The text of the results screen ("palavras", "sílabas", "retornos", the star images) is display only. The figures behind it are modelled.
- The compound-word composer `analyse_words` is not part of this model: it is not in ledora.py.
- SessionStats.Stars: compares `10 * countFails > 3 * n` in exact integers where the source compares with the double `n*0.3`. The rounding error of that product is far below half a unit in the last place whenever `3n/10` is an integer, and far below the distance 0.1 to the next integer otherwise. So for any word count a text can have, the outcome is the same. Word counts near 2^53 are not modelled as doubles.
- SessionStats.Stars: `duration` is an exact `real`, not a binary floating-point seconds value.
