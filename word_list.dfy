/** The word list of a play session: the loaded text is normalised (line
    breaks and full stops become spaces, commas disappear, runs of spaces
    shrink to one) and split on single spaces; each word is then handed to
    the hyphenation dictionary for its syllable boundaries. */
module WordList {

  /** `s.replace(c, d)` for one-character strings `c` and `d`. */
  function ReplaceChar(s: string, c: char, d: char): (r: string)
    ensures |r| == |s|
    ensures forall i :: 0 <= i < |s| ==> r[i] == if s[i] == c then d else s[i]
  {
    if s == [] then [] else [if s[0] == c then d else s[0]] + ReplaceChar(s[1..], c, d)
  }

  /** `s.replace(c, "")`: every `c` removed, every other character kept as
      often as it occurs (in order, see `DeleteAppend`). */
  function DeleteChar(s: string, c: char): (r: string)
    ensures multiset(r) == multiset(s)[c := 0]
    ensures forall x :: x in r <==> x in s && x != c
  {
    if s == [] then []
    else
      assert s == [s[0]] + s[1..];
      if s[0] == c then DeleteChar(s[1..], c)
      else [s[0]] + DeleteChar(s[1..], c)
  }

  /** A text without `c` is left as it is. */
  lemma {:induction false} DeleteAbsent(s: string, c: char)
    requires c !in s
    ensures DeleteChar(s, c) == s
  {
    if s != [] {
      assert c !in s[1..];
      DeleteAbsent(s[1..], c);
    }
  }

  /** No two neighbouring characters are both spaces. */
  predicate NoDoubleSpace(s: string) {
    forall i :: 0 <= i < |s| - 1 ==> !(s[i] == ' ' && s[i + 1] == ' ')
  }

  lemma NoDoubleSpaceTail(s: string)
    requires s != [] && NoDoubleSpace(s)
    ensures NoDoubleSpace(s[1..])
  {
    var t := s[1..];
    forall i | 0 <= i < |t| - 1 ensures !(t[i] == ' ' && t[i + 1] == ' ') {
      assert t[i] == s[i + 1] && t[i + 1] == s[i + 2];
    }
  }

  /** `re.sub(' +', ' ', s)`: every run of spaces becomes a single space.
      A space is dropped exactly when another space follows it. */
  function CollapseSpaces(s: string): (r: string)
    ensures NoDoubleSpace(r)
    ensures |s| > 0 ==> |r| > 0 && r[0] == s[0] && r[|r| - 1] == s[|s| - 1]
    ensures forall x :: x != ' ' ==> (x in r <==> x in s)
  {
    if |s| <= 1 then s
    else
      var rest := CollapseSpaces(s[1..]);
      if s[0] == ' ' && s[1] == ' ' then rest
      else
        var r := [s[0]] + rest;
        assert r[1..] == rest;
        assert forall x :: x in r <==> x == s[0] || x in rest;
        assert forall x :: x in s <==> x == s[0] || x in s[1..];
        r
  }

  /** A text without double spaces is left as it is. */
  lemma {:induction false} CollapseFixesNormal(s: string)
    requires NoDoubleSpace(s)
    ensures CollapseSpaces(s) == s
  {
    if |s| > 1 {
      NoDoubleSpaceTail(s);
      CollapseFixesNormal(s[1..]);
    }
  }

  /** Collapsing twice is collapsing once. */
  lemma CollapseIdempotent(s: string)
    ensures CollapseSpaces(CollapseSpaces(s)) == CollapseSpaces(s)
  {
    CollapseFixesNormal(CollapseSpaces(s));
  }

  /** Only spaces are dropped: the other characters stay, in order. */
  lemma {:induction false} CollapseOnlyDropsSpaces(s: string)
    ensures DeleteChar(CollapseSpaces(s), ' ') == DeleteChar(s, ' ')
  {
    if |s| > 1 {
      CollapseOnlyDropsSpaces(s[1..]);
      var rest := CollapseSpaces(s[1..]);
      if !(s[0] == ' ' && s[1] == ' ') {
        assert ([s[0]] + rest)[1..] == rest;
      }
    }
  }

  /** `" ".join(ws)`. */
  function Join(ws: seq<string>): string {
    if |ws| == 0 then ""
    else if |ws| == 1 then ws[0]
    else ws[0] + " " + Join(ws[1..])
  }

  /** Number of occurrences of `c` in `s`. */
  function Count(s: string, c: char): nat {
    if s == [] then 0 else (if s[0] == c then 1 else 0) + Count(s[1..], c)
  }

  /** `s.split(" ")`: the pieces between single spaces, keeping the empty
      pieces that leading, trailing or neighbouring spaces produce. */
  function Split(s: string): (ws: seq<string>)
    ensures |ws| == Count(s, ' ') + 1
    ensures forall i :: 0 <= i < |ws| ==> ' ' !in ws[i]
  {
    if s == [] then [""]
    else
      var rest := Split(s[1..]);
      if s[0] == ' ' then [""] + rest
      else
        var ws := [[s[0]] + rest[0]] + rest[1..];
        assert forall i :: 1 <= i < |ws| ==> ws[i] == rest[i];
        ws
  }

  /** Joining the pieces with single spaces gives the text back. */
  lemma {:induction false} JoinSplit(s: string)
    ensures Join(Split(s)) == s
  {
    if s != [] {
      JoinSplit(s[1..]);
      var rest := Split(s[1..]);
      if s[0] == ' ' {
        assert Split(s) == [""] + rest;
        assert ([""] + rest)[1..] == rest;
      } else {
        var ws := [[s[0]] + rest[0]] + rest[1..];
        assert Split(s) == ws;
        if |rest| > 1 {
          assert ws[1..] == rest[1..];
          assert Join(rest) == rest[0] + " " + Join(rest[1..]);
        }
      }
    }
  }

  /** Splitting a text that starts with a space-free piece `w`. */
  lemma {:induction false} SplitPrefix(w: string, t: string)
    requires ' ' !in w
    ensures Split(w + t) == [w + Split(t)[0]] + Split(t)[1..]
  {
    if w != [] {
      var u := w + t;
      assert u[1..] == w[1..] + t;
      assert u[0] == w[0] && w[0] != ' ';
      assert ' ' !in w[1..];
      SplitPrefix(w[1..], t);
      var r := Split(u[1..]);
      assert Split(u) == [[w[0]] + r[0]] + r[1..];
      assert [w[0]] + (w[1..] + Split(t)[0]) == w + Split(t)[0];
    } else {
      assert w + t == t;
      assert w + Split(t)[0] == Split(t)[0];
      assert Split(t) == [Split(t)[0]] + Split(t)[1..];
    }
  }

  /** Split undoes Join on space-free pieces. */
  lemma {:induction false} SplitJoin(ws: seq<string>)
    requires |ws| >= 1
    requires forall i :: 0 <= i < |ws| ==> ' ' !in ws[i]
    ensures Split(Join(ws)) == ws
  {
    if |ws| == 1 {
      SplitPrefix(ws[0], "");
      assert ws[0] + "" == ws[0];
    } else {
      var t := " " + Join(ws[1..]);
      assert Join(ws) == ws[0] + t;
      SplitPrefix(ws[0], t);
      SplitJoin(ws[1..]);
      assert t[1..] == Join(ws[1..]);
      assert Split(t) == [""] + ws[1..];
      assert ws[0] + "" == ws[0];
    }
  }

  lemma {:induction false} CountZero(s: string, c: char)
    ensures Count(s, c) == 0 <==> c !in s
  {
    if s != [] {
      CountZero(s[1..], c);
      assert s == [s[0]] + s[1..];
    }
  }

  /** The first piece is empty exactly when the text is empty or starts
      with a space; the last piece likewise at the other end. */
  lemma {:induction false} SplitEnds(s: string)
    ensures Split(s)[0] == "" <==> (s == [] || s[0] == ' ')
    ensures Split(s)[|Split(s)| - 1] == "" <==> (s == [] || s[|s| - 1] == ' ')
  {
    if s != [] {
      SplitEnds(s[1..]);
      assert s == [s[0]] + s[1..];
      if |Split(s[1..])| == 1 {
        CountZero(s[1..], ' ');
        assert s[1..] != [] ==> s[|s| - 1] == s[1..][|s[1..]| - 1] && s[|s| - 1] in s[1..];
      }
    }
  }

  /** In a text without double spaces only the first and the last piece
      can be empty. */
  lemma {:induction false} SplitInterior(s: string)
    requires NoDoubleSpace(s)
    ensures forall i :: 0 < i < |Split(s)| - 1 ==> Split(s)[i] != ""
  {
    if s != [] {
      var t := s[1..];
      assert NoDoubleSpace(t) by {
        forall i | 0 <= i < |t| - 1 ensures !(t[i] == ' ' && t[i + 1] == ' ') {
          assert t[i] == s[i + 1] && t[i + 1] == s[i + 2];
        }
      }
      SplitInterior(t);
      var rest := Split(t);
      if s[0] == ' ' && |rest| >= 2 {
        SplitEnds(t);
        assert t != [];
        assert t[0] == s[1];
      }
    }
  }

  /** The non-empty pieces of a split, in order. */
  function NonEmpty(ws: seq<string>): (r: seq<string>)
    ensures forall i :: 0 <= i < |r| ==> r[i] != ""
    ensures |r| <= |ws|
  {
    if ws == [] then [] else (if ws[0] == "" then [] else [ws[0]]) + NonEmpty(ws[1..])
  }

  /** Collapsing spaces keeps the first piece and the non-empty later pieces. */
  lemma {:induction false} CollapseSplit(s: string)
    ensures Split(CollapseSpaces(s))[0] == Split(s)[0]
    ensures NonEmpty(Split(CollapseSpaces(s))[1..]) == NonEmpty(Split(s)[1..])
  {
    if |s| > 1 {
      var t := s[1..];
      CollapseSplit(t);
      var c := CollapseSpaces(t);
      assert s == [s[0]] + t;
      var st, sc := Split(t), Split(c);
      assert NonEmpty(sc) == NonEmpty(st) by {
        assert sc == [sc[0]] + sc[1..] && st == [st[0]] + st[1..];
      }
      if s[0] == ' ' && s[1] == ' ' {
        assert Split(s) == [""] + st;
        assert st[0] == "";
        assert NonEmpty(st) == NonEmpty(st[1..]);
      } else {
        var r := [s[0]] + c;
        assert r[1..] == c && r[0] == s[0];
        assert CollapseSpaces(s) == r;
      }
    }
  }

  /** Collapsing spaces never joins or splits words: the non-empty pieces
      before and after are the same. */
  lemma CollapseKeepsWords(s: string)
    ensures NonEmpty(Split(CollapseSpaces(s))) == NonEmpty(Split(s))
  {
    CollapseSplit(s);
    var a, b := Split(CollapseSpaces(s)), Split(s);
    assert a == [a[0]] + a[1..] && b == [b[0]] + b[1..];
  }

  /** The first two replacements of `get_words`: line breaks and full
      stops become spaces. */
  function Separate(text: string): (r: string)
    ensures '\n' !in r && '.' !in r
  {
    var a := ReplaceChar(text, '\n', ' ');
    assert '\n' !in a;
    ReplaceChar(a, '.', ' ')
  }

  /** The text normalisation of `get_words`: line breaks and full stops
      become spaces, commas are deleted, and runs of spaces collapse. */
  function Normalise(text: string): (r: string)
    ensures '\n' !in r && '.' !in r && ',' !in r
    ensures NoDoubleSpace(r)
  {
    CollapseSpaces(DeleteChar(Separate(text), ','))
  }

  lemma ReplaceAppend(a: string, b: string, c: char, d: char)
    ensures ReplaceChar(a + b, c, d) == ReplaceChar(a, c, d) + ReplaceChar(b, c, d)
  {
    var l, r := ReplaceChar(a + b, c, d), ReplaceChar(a, c, d) + ReplaceChar(b, c, d);
    assert |l| == |r|;
    forall i | 0 <= i < |l| ensures l[i] == r[i] {
      if i < |a| { assert (a + b)[i] == a[i]; } else { assert (a + b)[i] == b[i - |a|]; }
    }
  }

  lemma {:induction false} DeleteAppend(a: string, b: string, c: char)
    ensures DeleteChar(a + b, c) == DeleteChar(a, c) + DeleteChar(b, c)
  {
    if a != [] {
      assert (a + b)[1..] == a[1..] + b;
      assert (a + b)[0] == a[0];
      DeleteAppend(a[1..], b, c);
      if a[0] != c {
        assert DeleteChar(a + b, c) == [a[0]] + DeleteChar(a[1..] + b, c);
        assert DeleteChar(a, c) == [a[0]] + DeleteChar(a[1..], c);
      }
    } else {
      assert a + b == b;
    }
  }

  lemma SeparateAppend(a: string, b: string)
    ensures Separate(a + b) == Separate(a) + Separate(b)
  {
    ReplaceAppend(a, b, '\n', ' ');
    ReplaceAppend(ReplaceChar(a, '\n', ' '), ReplaceChar(b, '\n', ' '), '.', ' ');
  }

  /** A comma is deleted, so it glues its neighbours together ... */
  lemma CommaIsDeleted(a: string, b: string)
    ensures Normalise(a + "," + b) == Normalise(a + b)
  {
    SeparateAppend(a + ",", b);
    SeparateAppend(a, ",");
    SeparateAppend(a, b);
    assert Separate(",") == ",";
    var a2, b2 := Separate(a), Separate(b);
    DeleteAppend(a2 + ",", b2, ',');
    DeleteAppend(a2, ",", ',');
    DeleteAppend(a2, b2, ',');
    assert DeleteChar(",", ',') == "";
    assert DeleteChar(a2, ',') + "" == DeleteChar(a2, ',');
  }

  /** ... whereas a line break or a full stop separates them like a space. */
  lemma SeparatorsAreSpaces(a: string, b: string, sep: char)
    requires sep == '\n' || sep == '.'
    ensures Normalise(a + [sep] + b) == Normalise(a + " " + b)
  {
    var x, y := a + [sep] + b, a + " " + b;
    var x2, y2 := Separate(x), Separate(y);
    assert |x2| == |y2|;
    forall i | 0 <= i < |x2| ensures x2[i] == y2[i] {
      if i != |a| { assert x[i] == y[i]; }
    }
    assert x2 == y2;
  }

  /** A character of a piece is a character of the joined text. */
  lemma {:induction false} JoinContains(ws: seq<string>, i: nat, x: char)
    requires i < |ws| && x in ws[i]
    ensures x in Join(ws)
  {
    if |ws| > 1 {
      if i == 0 {
        assert Join(ws) == ws[0] + (" " + Join(ws[1..]));
      } else {
        JoinContains(ws[1..], i - 1, x);
        assert Join(ws) == (ws[0] + " ") + Join(ws[1..]);
      }
    }
  }

  /** `get_words` without the shuffle: the pieces of the normalised text. */
  function GetWords(text: string): (words: seq<string>)
    ensures |words| >= 1
    ensures forall i :: 0 <= i < |words| ==>
      ' ' !in words[i] && '\n' !in words[i] && '.' !in words[i] && ',' !in words[i]
    ensures forall i :: 0 < i < |words| - 1 ==> words[i] != ""
    ensures Join(words) == Normalise(text)
  {
    var n := Normalise(text);
    var words := Split(n);
    SplitInterior(n);
    JoinSplit(n);
    forall i | 0 <= i < |words|
      ensures '\n' !in words[i] && '.' !in words[i] && ',' !in words[i]
    {
      if '\n' in words[i] { JoinContains(words, i, '\n'); }
      if '.' in words[i] { JoinContains(words, i, '.'); }
      if ',' in words[i] { JoinContains(words, i, ','); }
    }
    words
  }

  /** The words list gets an empty first word exactly when the normalised
      text starts with a space, and an empty last word exactly when it ends
      with one. */
  lemma GetWordsEnds(text: string)
    ensures GetWords(text)[0] == "" <==> (Normalise(text) == [] || Normalise(text)[0] == ' ')
    ensures GetWords(text)[|GetWords(text)| - 1] == "" <==>
      (Normalise(text) == [] || Normalise(text)[|Normalise(text)| - 1] == ' ')
  {
    SplitEnds(Normalise(text));
  }

  /** `get_position`: the boundaries of every word, index-aligned with the
      word list; `positions` stands for the hyphenation dictionary. */
  function GetPosition(words: seq<string>, positions: string -> seq<int>): (ps: seq<seq<int>>)
    ensures |ps| == |words|
    ensures forall i :: 0 <= i < |words| ==> ps[i] == positions(words[i])
  {
    if words == [] then [] else [positions(words[0])] + GetPosition(words[1..], positions)
  }
}
