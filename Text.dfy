/**
 * The string primitives the phrase counter relies on, modelled on the
 * behaviour of Python's built-in `str` methods for ASCII text:
 * `str.split(sep)`, `str.split()`, `str.strip()` and the deletion
 * table built by `str.maketrans('', '', string.punctuation)`.
 */
module Text {

  /** The ASCII characters for which Python's `str.isspace` holds; these are the
      separators of `str.split()` and what `str.strip()` removes. */
  const Whitespace: set<char> :=
    {' ', '\t', '\n', '\r', '\U{000B}', '\U{000C}', '\U{001C}', '\U{001D}', '\U{001E}', '\U{001F}'}

  /** Python's `string.punctuation`: the 32 ASCII punctuation characters. */
  const Punctuation: set<char> :=
    {'!', '"', '#', '$', '%', '&', '\'', '(', ')', '*', '+', ',', '-', '.', '/',
     ':', ';', '<', '=', '>', '?', '@', '[', '\\', ']', '^', '_', '`', '{', '|', '}', '~'}

  /** Membership in `Whitespace`, as the two code-point ranges it consists of. */
  predicate IsSpace(c: char) {
    ('\t' <= c <= '\r') || ('\U{001C}' <= c <= ' ')
  }

  /** Membership in `Punctuation`, as the four code-point ranges it consists of. */
  predicate IsPunctuation(c: char) {
    ('!' <= c <= '/') || (':' <= c <= '@') || ('[' <= c <= '`') || ('{' <= c <= '~')
  }

  /** The range tests pick out exactly the listed characters. */
  lemma CharClasses(c: char)
    ensures IsSpace(c) <==> c in Whitespace
    ensures IsPunctuation(c) <==> c in Punctuation
  {
  }

  /** A string that contains no whitespace character. */
  predicate NoSpace(s: string) {
    forall i :: 0 <= i < |s| ==> !IsSpace(s[i])
  }

  /** A word as `str.split()` produces it: non-empty and free of whitespace. */
  predicate IsWord(w: string) {
    |w| > 0 && NoSpace(w)
  }

  /** A word as the tokenizer produces it: a word that also holds no punctuation. */
  predicate IsCleanWord(w: string) {
    IsWord(w) && forall i :: 0 <= i < |w| ==> !IsPunctuation(w[i])
  }

  predicate AllWords(ws: seq<string>) {
    forall i :: 0 <= i < |ws| ==> IsWord(ws[i])
  }

  predicate AllCleanWords(ws: seq<string>) {
    forall i :: 0 <= i < |ws| ==> IsCleanWord(ws[i])
  }

  // ---------------------------------------------------------------------------
  // str.split(sep)

  /** `s.split(sep)` for a one-character separator: the maximal separator-free
      pieces between separators, including empty ones; there is always one
      more piece than there are separators. */
  function SplitOn(s: string, sep: char): (pieces: seq<string>)
    ensures |pieces| == Occurrences(s, sep) + 1
    ensures forall i :: 0 <= i < |pieces| ==> sep !in pieces[i]
  {
    if s == [] then [[]]
    else
      var rest := SplitOn(s[1..], sep);
      if s[0] == sep then [[]] + rest else [[s[0]] + rest[0]] + rest[1..]
  }

  /** The number of times `sep` occurs in `s`. */
  function Occurrences(s: string, sep: char): nat
  {
    if s == [] then 0 else (if s[0] == sep then 1 else 0) + Occurrences(s[1..], sep)
  }

  /** The count is the multiplicity of `sep` in the multiset of characters. */
  lemma {:induction false} OccurrencesMultiset(s: string, sep: char)
    ensures Occurrences(s, sep) == multiset(s)[sep]
  {
    if s != [] {
      OccurrencesMultiset(s[1..], sep);
      assert s == [s[0]] + s[1..];
    }
  }

  /** `sep.join(pieces)`. */
  function JoinWith(pieces: seq<string>, sep: char): string
  {
    if |pieces| == 0 then []
    else if |pieces| == 1 then pieces[0]
    else pieces[0] + [sep] + JoinWith(pieces[1..], sep)
  }

  /** Splitting on a separator loses nothing: joining the pieces back gives the text. */
  lemma {:induction false} JoinSplitOn(s: string, sep: char)
    ensures JoinWith(SplitOn(s, sep), sep) == s
  {
    if s != [] {
      var rest := SplitOn(s[1..], sep);
      JoinSplitOn(s[1..], sep);
      if s[0] == sep {
        assert SplitOn(s, sep) == [[]] + rest;
        assert ([[]] + rest)[1..] == rest;
      } else if |rest| > 1 {
        var pieces := SplitOn(s, sep);
        assert pieces[1..] == rest[1..];
        calc {
          JoinWith(pieces, sep);
          ([s[0]] + rest[0]) + [sep] + JoinWith(rest[1..], sep);
          [s[0]] + (rest[0] + [sep] + JoinWith(rest[1..], sep));
          [s[0]] + JoinWith(rest, sep);
        }
      }
    }
  }

  /** A text without the separator is a single piece. */
  lemma {:induction false} SplitOnWithout(s: string, sep: char)
    requires sep !in s
    ensures SplitOn(s, sep) == [s]
  {
    if s != [] {
      assert sep !in s[1..];
      SplitOnWithout(s[1..], sep);
      assert [s[0]] + s[1..] == s;
    }
  }

  /** A separator cuts the text in two, and the pieces of each side stay apart. */
  lemma {:induction false} SplitOnAppend(a: string, b: string, sep: char)
    ensures SplitOn(a + [sep] + b, sep) == SplitOn(a, sep) + SplitOn(b, sep)
  {
    var s := a + [sep] + b;
    if a == [] {
      assert s[1..] == b;
    } else {
      assert s[1..] == a[1..] + [sep] + b;
      SplitOnAppend(a[1..], b, sep);
    }
  }

  // ---------------------------------------------------------------------------
  // str.strip()

  /** The number of whitespace characters `s` starts with. */
  function LeadingSpaces(s: string): (n: nat)
    ensures n <= |s|
    ensures forall i :: 0 <= i < n ==> IsSpace(s[i])
    ensures n == |s| || !IsSpace(s[n])
  {
    if s == [] || !IsSpace(s[0]) then 0 else 1 + LeadingSpaces(s[1..])
  }

  /** The length of `s` without the whitespace characters it ends with. */
  function TrailingStart(s: string): (n: nat)
    ensures n <= |s|
    ensures forall i :: n <= i < |s| ==> IsSpace(s[i])
    ensures n == 0 || !IsSpace(s[n - 1])
  {
    if s == [] || !IsSpace(s[|s| - 1]) then |s| else TrailingStart(s[..|s| - 1])
  }

  /** `s.strip()`: `s` without its leading and trailing whitespace. What is
      left neither starts nor ends with whitespace. */
  function Strip(s: string): (r: string)
    ensures |r| == 0 || (!IsSpace(r[0]) && !IsSpace(r[|r| - 1]))
  {
    var t := s[LeadingSpaces(s)..];
    t[..TrailingStart(t)]
  }

  /** `s.strip()` is a slice of `s`, and everything cut off on either side is
      whitespace. With the contract of `Strip` this determines the result. */
  lemma StripSlice(s: string)
    ensures exists i, j ::
      && 0 <= i <= j <= |s| && Strip(s) == s[i..j]
      && (forall k :: 0 <= k < i ==> IsSpace(s[k]))
      && (forall k :: j <= k < |s| ==> IsSpace(s[k]))
  {
    var i := LeadingSpaces(s);
    var t := s[i..];
    var n := TrailingStart(t);
    assert forall k :: i + n <= k < |s| ==> s[k] == t[k - i];
    assert Strip(s) == s[i..i + n];
  }

  // ---------------------------------------------------------------------------
  // str.split()

  /** The word under construction, if any, as a list of zero or one words. */
  function Flush(cur: string): seq<string>
  {
    if cur == [] then [] else [cur]
  }

  /** The words of `cur + s`, where `cur` is the space-free word being read so far. */
  function SplitFrom(s: string, cur: string): (ws: seq<string>)
    requires NoSpace(cur)
    ensures AllWords(ws)
  {
    if s == [] then Flush(cur)
    else if IsSpace(s[0]) then
      var rest := SplitFrom(s[1..], []);
      var ws := Flush(cur) + rest;
      assert forall i :: |Flush(cur)| <= i < |ws| ==> ws[i] == rest[i - |Flush(cur)|];
      ws
    else SplitFrom(s[1..], cur + [s[0]])
  }

  /** `s.split()`: the maximal runs of non-whitespace characters, in order. */
  function SplitWhitespace(s: string): (ws: seq<string>)
    ensures AllWords(ws)
  {
    SplitFrom(s, [])
  }

  /** The empty text has no word. */
  lemma SplitWhitespaceEmpty()
    ensures SplitWhitespace("") == []
  {
  }

  /** A single word splits into itself. */
  lemma SplitWhitespaceWord(w: string)
    requires IsWord(w)
    ensures SplitWhitespace(w) == [w]
  {
    SplitFromWord(w, [], []);
    assert w + [] == w && [] + w == w;
  }

  /** Every whitespace character separates: the words on its two sides never
      merge, and the words of the whole are those of each side. With
      `SplitWhitespaceEmpty` and `SplitWhitespaceWord` this determines `split()`
      on every text. */
  lemma SplitWhitespaceSpace(a: string, c: char, b: string)
    requires IsSpace(c)
    ensures SplitWhitespace(a + [c] + b) == SplitWhitespace(a) + SplitWhitespace(b)
  {
    SplitFromSpace(a, c, b, []);
  }

  /** `SplitWhitespaceSpace` with a word under construction. */
  lemma {:induction false} SplitFromSpace(a: string, c: char, b: string, cur: string)
    requires IsSpace(c) && NoSpace(cur)
    ensures SplitFrom(a + [c] + b, cur) == SplitFrom(a, cur) + SplitFrom(b, [])
    decreases |a|
  {
    var s := a + [c] + b;
    if a == [] {
      assert s == [c] + b && s[0] == c && s[1..] == b;
    } else {
      assert s[0] == a[0] && s[1..] == a[1..] + [c] + b;
      if IsSpace(a[0]) {
        SplitFromSpace(a[1..], c, b, []);
        assert Flush(cur) + (SplitFrom(a[1..], []) + SplitFrom(b, [])) ==
          (Flush(cur) + SplitFrom(a[1..], [])) + SplitFrom(b, []);
      } else {
        assert NoSpace(cur + [a[0]]) by {
          assert forall k :: 0 <= k < |cur| ==> (cur + [a[0]])[k] == cur[k];
        }
        SplitFromSpace(a[1..], c, b, cur + [a[0]]);
      }
    }
  }

  /** Text free of punctuation splits into clean words. */
  lemma {:induction false} SplitFromClean(s: string, cur: string)
    requires NoSpace(cur)
    requires forall k :: 0 <= k < |s| ==> !IsPunctuation(s[k])
    requires forall k :: 0 <= k < |cur| ==> !IsPunctuation(cur[k])
    ensures AllCleanWords(SplitFrom(s, cur))
  {
    if s != [] {
      if IsSpace(s[0]) {
        SplitFromClean(s[1..], []);
        var rest := SplitFrom(s[1..], []);
        var ws := Flush(cur) + rest;
        assert forall i :: |Flush(cur)| <= i < |ws| ==> ws[i] == rest[i - |Flush(cur)|];
      } else {
        SplitFromClean(s[1..], cur + [s[0]]);
      }
    }
  }

  /** Reading a space-free stretch of text extends the word under construction. */
  lemma {:induction false} SplitFromWord(w: string, rest: string, cur: string)
    requires NoSpace(cur) && NoSpace(w)
    ensures NoSpace(cur + w)
    ensures SplitFrom(w + rest, cur) == SplitFrom(rest, cur + w)
  {
    if w == [] {
      assert w + rest == rest;
      assert cur + w == cur;
    } else {
      assert (w + rest)[1..] == w[1..] + rest;
      assert (cur + [w[0]]) + w[1..] == cur + w;
      SplitFromWord(w[1..], rest, cur + [w[0]]);
    }
  }

  /** The phrase text of a word sequence: the words joined by single spaces. */
  function Join(ws: seq<string>): string
  {
    if |ws| == 0 then []
    else if |ws| == 1 then ws[0]
    else ws[0] + " " + Join(ws[1..])
  }

  /** The text the depth-first walk accumulates: every word followed by one space. */
  function Spaced(ws: seq<string>): string
  {
    if ws == [] then [] else ws[0] + " " + Spaced(ws[1..])
  }

  /** The phrase text of words starts with the first word's first character
      and ends with the last word's last character. */
  lemma {:induction false} JoinEnds(ws: seq<string>)
    requires |ws| > 0 && AllWords(ws)
    ensures |Join(ws)| > 0
    ensures Join(ws)[0] == ws[0][0]
    ensures Join(ws)[|Join(ws)| - 1] == ws[|ws| - 1][|ws[|ws| - 1]| - 1]
  {
    if |ws| > 1 {
      var w, rest := ws[0], ws[1..];
      assert AllWords(rest) by {
        assert forall i :: 0 <= i < |rest| ==> rest[i] == ws[i + 1];
      }
      JoinEnds(rest);
      var j := Join(rest);
      assert Join(ws) == w + " " + j;
      assert rest[|rest| - 1] == ws[|ws| - 1];
      assert (w + " " + j)[|w + " " + j| - 1] == j[|j| - 1];
    }
  }

  /** Splitting the phrase text of a word sequence gives the words back: the
      phrase text of a path determines the path. */
  lemma {:induction false} SplitJoin(ws: seq<string>)
    requires AllWords(ws)
    ensures SplitWhitespace(Join(ws)) == ws
  {
    if |ws| == 1 {
      SplitFromWord(ws[0], [], []);
      assert ws[0] + [] == ws[0] && [] + ws[0] == ws[0];
    } else if |ws| > 1 {
      var w, j := ws[0], Join(ws[1..]);
      assert Join(ws) == w + (" " + j);
      SplitFromWord(w, " " + j, []);
      assert [] + w == w;
      assert (" " + j)[1..] == j;
      SplitJoin(ws[1..]);
      assert [ws[0]] + ws[1..] == ws;
    }
  }

  /** Two word sequences with the same phrase text are equal. */
  lemma JoinInjective(p: seq<string>, q: seq<string>)
    requires AllWords(p) && AllWords(q)
    requires Join(p) == Join(q)
    ensures p == q
  {
    SplitJoin(p);
    SplitJoin(q);
  }

  /** The accumulated text of a non-empty word sequence is its phrase text plus one space. */
  lemma {:induction false} SpacedIsJoinPlusSpace(ws: seq<string>)
    requires |ws| > 0
    ensures Spaced(ws) == Join(ws) + " "
  {
    if |ws| > 1 {
      SpacedIsJoinPlusSpace(ws[1..]);
    }
  }

  /** Stripping the accumulated text of a word sequence gives its phrase text:
      the trailing space is the only whitespace at either end. */
  lemma StripSpaced(ws: seq<string>)
    requires AllWords(ws)
    ensures Strip(Spaced(ws)) == Join(ws)
  {
    if |ws| > 0 {
      SpacedIsJoinPlusSpace(ws);
      JoinEnds(ws);
      StripOneTrailingSpace(Join(ws));
    }
  }

  /** Stripping text that has non-space characters at both ends and one
      trailing space removes just that space. */
  lemma StripOneTrailingSpace(j: string)
    requires |j| > 0 && !IsSpace(j[0]) && !IsSpace(j[|j| - 1])
    ensures Strip(j + " ") == j
  {
    var s := j + " ";
    assert s[0] == j[0];
    assert LeadingSpaces(s) == 0;
    assert s[0..] == s;
    assert s[..|s| - 1] == j;
    assert TrailingStart(s) == TrailingStart(j) == |j|;
  }

  /** Text with no space at its end and at most one in front loses just that
      one to `strip()`. */
  lemma StripPadded(pad: string, j: string)
    requires pad == "" || pad == " "
    requires |j| > 0 && !IsSpace(j[0]) && !IsSpace(j[|j| - 1])
    ensures Strip(pad + j) == j
  {
    var text := pad + j;
    assert LeadingSpaces(j) == 0;
    assert LeadingSpaces(text) == |pad| by {
      if pad == " " {
        assert text[1..] == j;
      } else {
        assert text == j;
      }
    }
    assert text[|pad|..] == j;
    assert TrailingStart(j) == |j|;
    assert j[..|j|] == j;
  }

  // ---------------------------------------------------------------------------
  // str.translate with a deletion table

  /** A string without punctuation characters. */
  predicate NoPunctuation(s: string) {
    forall i :: 0 <= i < |s| ==> !IsPunctuation(s[i])
  }

  /** `s.translate(str.maketrans('', '', string.punctuation))`: `s` with every
      punctuation character removed and the other characters kept in order. */
  function DeletePunctuation(s: string): (r: string)
    ensures forall c :: c in r <==> c in s && !IsPunctuation(c)
    ensures |r| <= |s|
  {
    if s == [] then []
    else (if IsPunctuation(s[0]) then [] else [s[0]]) + DeletePunctuation(s[1..])
  }

  /** Text without punctuation is left as it is by the deletion. */
  lemma {:induction false} DeletePunctuationNone(s: string)
    requires NoPunctuation(s)
    ensures DeletePunctuation(s) == s
  {
    if s != [] {
      assert NoPunctuation(s[1..]) by {
        assert forall i :: 0 <= i < |s[1..]| ==> s[1..][i] == s[i + 1];
      }
      DeletePunctuationNone(s[1..]);
      assert [s[0]] + s[1..] == s;
    }
  }

  /** Deletion works character by character: deleting from two texts side by
      side is deleting from each. */
  lemma {:induction false} DeletePunctuationAppend(a: string, b: string)
    ensures DeletePunctuation(a + b) == DeletePunctuation(a) + DeletePunctuation(b)
  {
    if a != [] {
      assert (a + b)[0] == a[0] && (a + b)[1..] == a[1..] + b;
      DeletePunctuationAppend(a[1..], b);
    } else {
      assert a + b == b;
    }
  }

  /** One character: a punctuation character is removed, and any other is
      kept as it is. With `DeletePunctuationAppend` this determines the
      deletion on every text. */
  lemma DeletePunctuationChar(c: char)
    ensures DeletePunctuation([c]) == if IsPunctuation(c) then [] else [c]
  {
    assert [c][1..] == [];
  }

  /** Clean words joined by single spaces hold no punctuation. */
  lemma {:induction false} JoinClean(ws: seq<string>)
    requires AllCleanWords(ws)
    ensures NoPunctuation(Join(ws))
  {
    if |ws| > 1 {
      assert AllCleanWords(ws[1..]) by {
        assert forall i :: 0 <= i < |ws[1..]| ==> ws[1..][i] == ws[i + 1];
      }
      JoinClean(ws[1..]);
      var j := Join(ws);
      assert j == ws[0] + " " + Join(ws[1..]);
      assert IsCleanWord(ws[0]);
      forall i | 0 <= i < |j| ensures !IsPunctuation(j[i]) {
        if i < |ws[0]| {
          assert j[i] == ws[0][i];
        } else if i == |ws[0]| {
          assert j[i] == ' ';
        } else {
          assert j[i] == Join(ws[1..])[i - |ws[0]| - 1];
        }
      }
    } else if |ws| == 1 {
      assert IsCleanWord(ws[0]);
    }
  }
}
