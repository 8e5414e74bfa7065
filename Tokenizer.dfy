/**
 * The sentence-aware tokenizer at the start of `build_tree`
 * (phraser.py:61-73): sentence-ending punctuation becomes '.', the text is
 * cut at every '.', each piece loses its punctuation and is split into
 * words, and pieces without words are dropped.
 */
module Tokenizer {
  import opened Text

  /** The characters that end a sentence: `.` and the three `re.sub` turns
      into one. */
  predicate IsSentenceEnd(c: char) {
    c == '.' || c == ';' || c == '!' || c == '?'
  }

  /** `re.sub('[;!?]', '.', text)`: every sentence end becomes a period and
      every other character is kept. */
  function NormalizeEnds(text: string): (r: string)
    ensures |r| == |text|
    ensures forall i :: 0 <= i < |text| ==>
      (r[i] == '.' <==> IsSentenceEnd(text[i])) && (!IsSentenceEnd(text[i]) ==> r[i] == text[i])
  {
    seq(|text|, i requires 0 <= i < |text| => if IsSentenceEnd(text[i]) then '.' else text[i])
  }

  /** The words of one piece of text between periods:
      `s.translate(translator).strip().split()`. */
  function SentenceWords(piece: string): (words: seq<string>)
    ensures AllCleanWords(words)
  {
    var kept := DeletePunctuation(piece);
    assert forall k :: 0 <= k < |Strip(kept)| ==> Strip(kept)[k] == kept[LeadingSpaces(kept) + k];
    SplitFromClean(Strip(kept), []);
    SplitWhitespace(Strip(kept))
  }

  /** `f` applied to every element of `xs`, in order. */
  function Map(f: string -> seq<string>, xs: seq<string>): (ys: seq<seq<string>>)
    ensures |ys| == |xs|
    ensures forall j :: 0 <= j < |xs| ==> ys[j] == f(xs[j])
  {
    seq(|xs|, j requires 0 <= j < |xs| => f(xs[j]))
  }

  /** Mapping two runs side by side is mapping each run. */
  lemma MapAppend(f: string -> seq<string>, xs: seq<string>, ys: seq<string>)
    ensures Map(f, xs + ys) == Map(f, xs) + Map(f, ys)
  {
    var all, ab := Map(f, xs + ys), Map(f, xs) + Map(f, ys);
    forall j | 0 <= j < |all| ensures all[j] == ab[j] {
      if j < |xs| {
        assert (xs + ys)[j] == xs[j];
      } else {
        assert (xs + ys)[j] == ys[j - |xs|];
      }
    }
  }

  /** The word list of every piece, in order. */
  function PieceWords(pieces: seq<string>): (lists: seq<seq<string>>)
    ensures |lists| == |pieces|
    ensures forall j :: 0 <= j < |pieces| ==> lists[j] == SentenceWords(pieces[j])
  {
    Map(SentenceWords, pieces)
  }

  /** The non-empty word lists, in order: the pieces without words are skipped
      (the `continue` at phraser.py:72-73). */
  function DropEmpty(lists: seq<seq<string>>): (kept: seq<seq<string>>)
    ensures forall j :: 0 <= j < |kept| ==> |kept[j]| > 0
    ensures forall j :: 0 <= j < |kept| ==> exists i :: 0 <= i < |lists| && kept[j] == lists[i]
  {
    if lists == [] then []
    else
      var init := DropEmpty(lists[..|lists| - 1]);
      var last := lists[|lists| - 1];
      if |last| == 0 then init
      else
        assert forall j :: 0 <= j < |init| ==> (init + [last])[j] == init[j];
        init + [last]
  }

  /** One list is kept exactly when it is non-empty. With `DropEmptyAppend`
      this determines the result on every input: the non-empty lists, all of
      them, in their order. */
  lemma DropEmptyOne(l: seq<string>)
    ensures DropEmpty([l]) == if l == [] then [] else [l]
  {
    assert [l][..0] == [];
  }

  /** A sentence as the tokenizer produces it: at least one word, all clean. */
  predicate IsSentence(words: seq<string>) {
    |words| > 0 && AllCleanWords(words)
  }

  /** The non-empty word lists of the sentences of `text`, in text order. */
  function Tokenize(text: string): (sentences: seq<seq<string>>)
    ensures forall j :: 0 <= j < |sentences| ==> IsSentence(sentences[j])
  {
    DropEmpty(PieceWords(SplitOn(NormalizeEnds(text), '.')))
  }

  /** Dropping the empty lists of two runs side by side is dropping them in each run. */
  lemma {:induction false} DropEmptyAppend(xs: seq<seq<string>>, ys: seq<seq<string>>)
    ensures DropEmpty(xs + ys) == DropEmpty(xs) + DropEmpty(ys)
    decreases |ys|
  {
    if ys != [] {
      var all := xs + ys;
      assert all[..|all| - 1] == xs + ys[..|ys| - 1];
      assert all[|all| - 1] == ys[|ys| - 1];
      DropEmptyAppend(xs, ys[..|ys| - 1]);
      var a, b := DropEmpty(xs), DropEmpty(ys[..|ys| - 1]);
      var last := ys[|ys| - 1];
      var extra := if |last| == 0 then [] else [last];
      assert DropEmpty(ys) == b + extra;
      assert DropEmpty(all) == (a + b) + extra;
      assert (a + b) + extra == a + (b + extra);
    } else {
      assert xs + ys == xs;
    }
  }

  /** Normalising sentence ends commutes with putting texts side by side. */
  lemma NormalizeEndsAppend(a: string, b: string)
    ensures NormalizeEnds(a + b) == NormalizeEnds(a) + NormalizeEnds(b)
  {
  }

  /** Every one of `.`, `;`, `!` and `?` ends a sentence in the same way: the
      words before it and the words after it never share a sentence, and the
      sentences of the whole are those of each side. */
  lemma SentenceEndSplits(a: string, c: char, b: string)
    requires IsSentenceEnd(c)
    ensures Tokenize(a + [c] + b) == Tokenize(a) + Tokenize(b)
  {
    var na, nb := NormalizeEnds(a), NormalizeEnds(b);
    NormalizeEndsAppend(a + [c], b);
    NormalizeEndsAppend(a, [c]);
    assert NormalizeEnds([c]) == ['.'];
    assert NormalizeEnds(a + [c] + b) == na + ['.'] + nb;
    var pa, pb := SplitOn(na, '.'), SplitOn(nb, '.');
    SplitOnAppend(na, nb, '.');
    PieceWordsAppend(pa, pb);
    DropEmptyAppend(PieceWords(pa), PieceWords(pb));
  }

  /** The word lists of two runs of pieces side by side are those of each run. */
  lemma PieceWordsAppend(ps: seq<string>, qs: seq<string>)
    ensures PieceWords(ps + qs) == PieceWords(ps) + PieceWords(qs)
  {
    MapAppend(SentenceWords, ps, qs);
  }

  /** A sentence in which punctuation removal leaves no word contributes
      nothing: it is as if the text ended before it. */
  lemma EmptySentenceDropped(a: string, b: string)
    requires forall k :: 0 <= k < |b| ==> !IsSentenceEnd(b[k])
    requires SentenceWords(b) == []
    ensures Tokenize(a + "." + b) == Tokenize(a)
  {
    SentenceEndSplits(a, '.', b);
    assert NormalizeEnds(b) == b;
    SplitOnWithout(b, '.');
    assert PieceWords([b]) == [[]];
    assert DropEmpty([[]]) == [];
  }

  /** The empty text has no sentence. */
  lemma EmptyText()
    ensures Tokenize("") == []
  {
    assert SplitOn("", '.') == [""];
    assert SentenceWords("") == [];
    assert PieceWords([""]) == [[]];
    assert DropEmpty([[]]) == [];
  }

  /** A text without punctuation, sentence ends included, is a single piece. */
  lemma OnePiece(text: string)
    requires NoPunctuation(text)
    ensures Tokenize(text) == DropEmpty([SentenceWords(text)])
  {
    assert NormalizeEnds(text) == text;
    SplitOnWithout(text, '.');
    assert PieceWords([text]) == [SentenceWords(text)];
  }

  /** The words of a sentence written out as its words joined by single
      spaces, with at most one space in front, are those words. */
  lemma PaddedSentenceWords(pad: string, ws: seq<string>)
    requires pad == "" || pad == " "
    requires IsSentence(ws)
    ensures NoPunctuation(pad + Join(ws))
    ensures SentenceWords(pad + Join(ws)) == ws
  {
    var j := Join(ws);
    var text := pad + j;
    JoinClean(ws);
    assert NoPunctuation(text) by {
      assert forall i :: 0 <= i < |text| ==> text[i] == if i < |pad| then ' ' else j[i - |pad|];
    }
    DeletePunctuationNone(text);
    assert AllWords(ws) by {
      assert forall i :: 0 <= i < |ws| ==> IsCleanWord(ws[i]);
    }
    JoinEnds(ws);
    StripPadded(pad, j);
    SplitJoin(ws);
  }

  /** The tokenizer gives back a sentence written out as its words joined by
      single spaces, with at most one space in front. */
  lemma CleanSentence(pad: string, ws: seq<string>)
    requires pad == "" || pad == " "
    requires IsSentence(ws)
    ensures Tokenize(pad + Join(ws)) == [ws]
  {
    PaddedSentenceWords(pad, ws);
    OnePiece(pad + Join(ws));
    assert DropEmpty([ws]) == [ws] by {
      assert [ws][..0] == [];
    }
  }

  /** Two sentences, each ended by a period and separated by one space, give
      back their words. */
  lemma TwoSentences(x: seq<string>, y: seq<string>)
    requires IsSentence(x) && IsSentence(y)
    ensures Tokenize(Join(x) + ". " + Join(y) + ".") == [x, y]
  {
    var a, b := Join(x), Join(y);
    assert a + ". " + b + "." == a + ['.'] + ((" " + b) + ['.'] + "");
    SentenceEndSplits(a, '.', (" " + b) + ['.'] + "");
    SentenceEndSplits(" " + b, '.', "");
    CleanSentence("", x);
    assert "" + a == a;
    CleanSentence(" ", y);
    EmptyText();
  }
}
