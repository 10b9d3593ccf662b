/** `normalize_text`: strip the text, then replace every run of whitespace by one space. */
module Normalize {
  import opened PyStr

  /** `re.sub(r"\s+", " ", s)`: the last character of each maximal whitespace
      run becomes a space, the others disappear. */
  function CollapseSpaces(s: string): (r: string)
    ensures |r| <= |s| && (r == []) == (s == [])
    ensures s != [] && !IsSpace(s[0]) ==> r[0] == s[0]
    ensures s != [] && !IsSpace(s[|s| - 1]) ==> r[|r| - 1] == s[|s| - 1]
  {
    if s == [] then ""
    else if IsSpace(s[0]) then
      if |s| > 1 && IsSpace(s[1]) then CollapseSpaces(s[1..]) else " " + CollapseSpaces(s[1..])
    else [s[0]] + CollapseSpaces(s[1..])
  }

  predicate NoAdjacentSpaces(s: string) {
    forall i :: 0 < i < |s| ==> !(IsSpace(s[i - 1]) && IsSpace(s[i]))
  }

  /** The only whitespace character left is the plain space. */
  predicate OnlyPlainSpaces(s: string) {
    forall i :: 0 <= i < |s| ==> IsSpace(s[i]) ==> s[i] == ' '
  }

  /** The collapse leaves no two whitespace characters side by side, and
      only plain spaces. */
  lemma {:induction false} CollapsedIsNormal(s: string)
    ensures var r := CollapseSpaces(s); NoAdjacentSpaces(r) && OnlyPlainSpaces(r)
  {
    if s != [] {
      var tail := CollapseSpaces(s[1..]);
      CollapsedIsNormal(s[1..]);
      var r := CollapseSpaces(s);
      if IsSpace(s[0]) && !(|s| > 1 && IsSpace(s[1])) {
        assert r == " " + tail;
        assert tail != [] ==> !IsSpace(tail[0]);
        forall i | 1 < i < |r| ensures !(IsSpace(r[i - 1]) && IsSpace(r[i])) {
          assert r[i - 1] == tail[i - 2] && r[i] == tail[i - 1];
        }
      } else if !IsSpace(s[0]) {
        assert r == [s[0]] + tail;
        forall i | 1 < i < |r| ensures !(IsSpace(r[i - 1]) && IsSpace(r[i])) {
          assert r[i - 1] == tail[i - 2] && r[i] == tail[i - 1];
        }
      }
    }
  }

  predicate Trimmed(s: string) {
    s != [] ==> !IsSpace(s[0]) && !IsSpace(s[|s| - 1])
  }

  /** What `normalize_text` promises of its result. */
  predicate IsNormalized(s: string) {
    Trimmed(s) && NoAdjacentSpaces(s) && OnlyPlainSpaces(s)
  }

  /** `normalize_text(text)`; `None` stands for Python's `None`, read as `""`.
      The result is `" ".join(text.split())`: the words of the text, in order,
      separated by single spaces. */
  function NormalizeText(text: Option<string>): (r: string)
    ensures text.Some? ==> r == Join(Words(text.value), " ")
    ensures IsNormalized(r)
    ensures text == None || text == Some("") ==> r == ""
  {
    var raw := match text case None => "" case Some(t) => t;
    var stripped := Strip(raw, IsSpace);
    var r := CollapseSpaces(stripped);
    CollapsedIsNormal(stripped);
    CollapseTrimmed(stripped);
    WordsOfStripped(raw);
    assert r != [] ==> stripped != [] && !IsSpace(r[0]) && !IsSpace(r[|r| - 1]);
    r
  }

  predicate IsVisible(c: char) { !IsSpace(c) }

  /** A non-empty run of non-whitespace characters. */
  predicate IsWord(w: string) {
    w != [] && forall i :: 0 <= i < |w| ==> IsVisible(w[i])
  }

  /** `s.split()`: the maximal runs of non-whitespace characters, in order. */
  function Words(s: string): (r: seq<string>)
    ensures forall k :: 0 <= k < |r| ==> IsWord(r[k])
    decreases |s|
  {
    if s == [] then []
    else if IsSpace(s[0]) then Words(s[1..])
    else
      var n := LeadingDropped(s, IsVisible);
      [s[..n]] + Words(s[n..])
  }

  /** Whitespace in front of a text adds no word. */
  lemma {:induction false} WordsAfterSpaces(front: string, rest: string)
    requires forall i :: 0 <= i < |front| ==> IsSpace(front[i])
    ensures Words(front + rest) == Words(rest)
  {
    if front != [] {
      assert (front + rest)[1..] == front[1..] + rest;
      WordsAfterSpaces(front[1..], rest);
    } else {
      assert front + rest == rest;
    }
  }

  /** `LeadingDropped` is the only length with its two properties. */
  lemma LeadingDroppedUnique(s: string, drop: char -> bool, k: nat)
    requires k <= |s| && forall i :: 0 <= i < k ==> drop(s[i])
    requires k < |s| ==> !drop(s[k])
    ensures LeadingDropped(s, drop) == k
  {
  }

  /** Whitespace after a text adds no word either. */
  lemma {:induction false} WordsBeforeSpaces(text: string, back: string)
    requires forall i :: 0 <= i < |back| ==> IsSpace(back[i])
    ensures Words(text + back) == Words(text)
    decreases |text|
  {
    var s := text + back;
    if text == [] {
      WordsAfterSpaces(back, "");
      assert back + "" == back && text + back == back;
      assert Words("") == [];
    } else if IsSpace(text[0]) {
      assert s[1..] == text[1..] + back;
      WordsBeforeSpaces(text[1..], back);
    } else {
      var n := LeadingDropped(text, IsVisible);
      LeadingDroppedUnique(s, IsVisible, n);
      assert s[..n] == text[..n];
      assert s[n..] == text[n..] + back;
      WordsBeforeSpaces(text[n..], back);
    }
  }

  /** Stripping keeps the words. */
  lemma WordsOfStripped(text: string)
    ensures Words(Strip(text, IsSpace)) == Words(text)
  {
    var stripped := Strip(text, IsSpace);
    var lo := LeadingDropped(text, IsSpace);
    var hi := lo + |stripped|;
    var front, back := text[..lo], text[hi..];
    assert text == front + (stripped + back);
    assert forall i :: 0 <= i < |back| ==> IsSpace(back[i]) by {
      forall i | 0 <= i < |back| ensures IsSpace(back[i]) { assert back[i] == text[hi..][i]; }
    }
    WordsAfterSpaces(front, stripped + back);
    WordsBeforeSpaces(stripped, back);
  }

  /** A word in front of a text is kept as it is. */
  lemma {:induction false} CollapseAfterWord(word: string, rest: string)
    requires forall i :: 0 <= i < |word| ==> IsVisible(word[i])
    ensures CollapseSpaces(word + rest) == word + CollapseSpaces(rest)
  {
    if word == [] {
      assert word + rest == rest;
    } else {
      var s, init := word + rest, word[1..];
      assert forall i :: 0 <= i < |init| ==> IsVisible(init[i]) by {
        forall i | 0 <= i < |init| ensures IsVisible(init[i]) { assert init[i] == word[i + 1]; }
      }
      assert s == [word[0]] + (init + rest);
      CollapseAfterVisible(word[0], init + rest);
      CollapseAfterWord(init, rest);
      var collapsed := CollapseSpaces(rest);
      assert [word[0]] + (init + collapsed) == ([word[0]] + init) + collapsed;
      assert [word[0]] + init == word;
    }
  }

  lemma CollapseAfterVisible(c: char, rest: string)
    requires IsVisible(c)
    ensures CollapseSpaces([c] + rest) == [c] + CollapseSpaces(rest)
  {
    assert ([c] + rest)[1..] == rest;
  }

  /** A whitespace run in front of a text that does not start with
      whitespace becomes one space. */
  lemma {:induction false} CollapseAfterRun(run: string, rest: string)
    requires run != [] && forall i :: 0 <= i < |run| ==> IsSpace(run[i])
    requires rest == [] || !IsSpace(rest[0])
    ensures CollapseSpaces(run + rest) == " " + CollapseSpaces(rest)
  {
    var s := run + rest;
    assert s[0] == run[0] && s[1..] == run[1..] + rest;
    if |run| > 1 {
      assert s[1] == run[1];
      CollapseAfterRun(run[1..], rest);
    } else {
      assert run[1..] + rest == rest;
    }
  }

  /** A word followed by whitespace or by nothing is the first word. */
  lemma WordsAfterWord(word: string, rest: string)
    requires IsWord(word) && (rest == [] || IsSpace(rest[0]))
    ensures Words(word + rest) == [word] + Words(rest)
  {
    var s := word + rest;
    LeadingDroppedUnique(s, IsVisible, |word|);
    assert s[..|word|] == word && s[|word|..] == rest;
  }

  /** Text without whitespace at either end collapses to its words joined by
      single spaces: each whitespace run between two words becomes exactly one
      space. */
  lemma {:induction false} CollapseTrimmed(s: string)
    requires Trimmed(s)
    ensures CollapseSpaces(s) == Join(Words(s), " ")
    decreases |s|
  {
    if s != [] {
      var word, rest := SplitWord(s);
      WordsAfterWord(word, rest);
      CollapseNormalized(word);
      if rest != [] {
        var run, tail := SplitRun(rest, s[|s| - 1]);
        CollapseTrimmed(tail);
        WordThenRun(word, run, tail);
      } else {
        assert Words(rest) == [] && s == word;
      }
    }
  }

  /** The first word of a text that starts with one, and what follows it. */
  lemma SplitWord(s: string) returns (word: string, rest: string)
    requires s != [] && !IsSpace(s[0])
    ensures s == word + rest && IsWord(word) && (rest == [] || IsSpace(rest[0]))
  {
    var n := LeadingDropped(s, IsVisible);
    word, rest := s[..n], s[n..];
  }

  /** The whitespace run a text starts with, and the text after it, which
      ends as the whole text does. */
  lemma SplitRun(rest: string, last: char) returns (run: string, tail: string)
    requires rest != [] && IsSpace(rest[0]) && !IsSpace(last) && rest[|rest| - 1] == last
    ensures rest == run + tail && run != [] && forall i :: 0 <= i < |run| ==> IsSpace(run[i])
    ensures tail != [] && !IsSpace(tail[0]) && Trimmed(tail) && |tail| < |rest|
  {
    var m := LeadingDropped(rest, IsSpace);
    run, tail := rest[..m], rest[m..];
    assert tail[|tail| - 1] == last;
  }

  /** One step of `CollapseTrimmed`: a word, then a whitespace run, then
      text that starts with a word. */
  lemma WordThenRun(word: string, run: string, tail: string)
    requires IsWord(word) && run != [] && forall i :: 0 <= i < |run| ==> IsSpace(run[i])
    requires tail != [] && !IsSpace(tail[0])
    requires CollapseSpaces(tail) == Join(Words(tail), " ")
    ensures CollapseSpaces(word + (run + tail)) == Join([word] + Words(run + tail), " ")
  {
    WordsAfterSpaces(run, tail);
    JoinCons(word, Words(tail));
    CollapseAfterWord(word, run + tail);
    CollapseAfterRun(run, tail);
    SpaceBetween(word, Join(Words(tail), " "));
  }

  lemma JoinCons(word: string, words: seq<string>)
    requires words != []
    ensures Join([word] + words, " ") == word + " " + Join(words, " ")
  {
    assert ([word] + words)[1..] == words;
  }

  lemma SpaceBetween(a: string, b: string)
    ensures a + (" " + b) == a + " " + b
  {
  }

  /** The text with its whitespace removed: what normalizing must not change. */
  function Visible(s: string): string {
    if s == [] then "" else (if IsSpace(s[0]) then "" else [s[0]]) + Visible(s[1..])
  }

  lemma {:induction false} VisibleAppend(a: string, b: string)
    ensures Visible(a + b) == Visible(a) + Visible(b)
  {
    if a == [] {
      assert a + b == b;
    } else {
      assert (a + b)[1..] == a[1..] + b;
      VisibleAppend(a[1..], b);
    }
  }

  lemma {:induction false} VisibleAllSpaces(s: string)
    requires forall i :: 0 <= i < |s| ==> IsSpace(s[i])
    ensures Visible(s) == ""
  {
    if s != [] {
      VisibleAllSpaces(s[1..]);
    }
  }

  lemma {:induction false} CollapseKeepsVisible(s: string)
    ensures Visible(CollapseSpaces(s)) == Visible(s)
  {
    if s != [] {
      CollapseKeepsVisible(s[1..]);
      if IsSpace(s[0]) && !(|s| > 1 && IsSpace(s[1])) {
        assert Visible(" " + CollapseSpaces(s[1..])) == Visible(CollapseSpaces(s[1..])) by {
          VisibleAppend(" ", CollapseSpaces(s[1..]));
        }
      }
      if !IsSpace(s[0]) {
        VisibleAppend([s[0]], CollapseSpaces(s[1..]));
      }
    }
  }

  lemma VisibleBetweenSpaces(front: string, mid: string, back: string)
    requires forall i :: 0 <= i < |front| ==> IsSpace(front[i])
    requires forall i :: 0 <= i < |back| ==> IsSpace(back[i])
    ensures Visible(front + mid + back) == Visible(mid)
  {
    VisibleAppend(front + mid, back);
    VisibleAppend(front, mid);
    VisibleAllSpaces(front);
    VisibleAllSpaces(back);
  }

  /** Normalizing removes and replaces whitespace only: every other character
      is kept, in order. */
  lemma NormalizeKeepsVisible(text: string)
    ensures Visible(NormalizeText(Some(text))) == Visible(text)
  {
    var stripped := Strip(text, IsSpace);
    StrippedKeepsVisible(text, LeadingDropped(text, IsSpace), stripped);
    CollapseKeepsVisible(stripped);
  }

  /** A slice of `text` with only whitespace outside it has the same visible text. */
  lemma StrippedKeepsVisible(text: string, lo: nat, stripped: string)
    requires lo + |stripped| <= |text| && stripped == text[lo..lo + |stripped|]
    requires forall i :: 0 <= i < lo ==> IsSpace(text[i])
    requires forall i :: lo + |stripped| <= i < |text| ==> IsSpace(text[i])
    ensures Visible(stripped) == Visible(text)
  {
    var hi := lo + |stripped|;
    var front, back := text[..lo], text[hi..];
    assert text == front + stripped + back;
    assert forall i :: 0 <= i < |back| ==> IsSpace(back[i]) by {
      forall i | 0 <= i < |back| ensures IsSpace(back[i]) { assert back[i] == text[hi + i]; }
    }
    VisibleBetweenSpaces(front, stripped, back);
  }

  /** Text already in normal form is a fixed point of the collapse. */
  lemma {:induction false} CollapseNormalized(s: string)
    requires NoAdjacentSpaces(s) && OnlyPlainSpaces(s)
    ensures CollapseSpaces(s) == s
  {
    if s != [] {
      assert NoAdjacentSpaces(s[1..]) && OnlyPlainSpaces(s[1..]) by {
        forall i | 0 < i < |s| - 1 ensures !(IsSpace(s[1..][i - 1]) && IsSpace(s[1..][i])) {
          assert s[1..][i - 1] == s[i] && s[1..][i] == s[i + 1];
        }
      }
      CollapseNormalized(s[1..]);
      if IsSpace(s[0]) {
        assert s[0] == ' ';
        assert |s| > 1 ==> !IsSpace(s[1]);
      }
      assert [s[0]] + s[1..] == s;
    }
  }

  /** `normalize_text(normalize_text(x)) == normalize_text(x)`. */
  lemma NormalizeIdempotent(text: Option<string>)
    ensures NormalizeText(Some(NormalizeText(text))) == NormalizeText(text)
  {
    var n := NormalizeText(text);
    StripTrimmed(n);
    CollapseNormalized(n);
  }

  /** Stripping text that neither starts nor ends with whitespace changes nothing. */
  lemma StripTrimmed(s: string)
    requires Trimmed(s)
    ensures Strip(s, IsSpace) == s
  {
    if s != [] {
      StripPadded("", s, "", IsSpace);
      assert "" + s + "" == s;
    }
  }
}
