/**
 * `build_tree` (phraser.py:50-80): tokenizes the text and inserts, for every
 * sentence, the longest window at each start index into a fresh tree.
 */
module Builder {
  import opened Text
  import opened Tokenizer
  import opened Windows
  import opened TrieSpec
  import opened Nodes

  /** Inserting one more window of a run. */
  lemma InsertAllStep(t: Trie, windows: seq<seq<string>>, k: nat)
    requires k < |windows|
    ensures InsertAll(t, windows[..k + 1]) == Insert(InsertAll(t, windows[..k]), windows[k])
  {
    assert windows[..k + 1][..k] == windows[..k];
  }

  /** The inner loop of `build_tree` (phraser.py:76-78): inserts, for every
      start index that leaves room for `minlen` words, the longest window of at
      most `maxlen` words from there. */
  method InsertSentence(root: Node, words: seq<string>, minlen: nat, maxlen: nat)
    requires 1 <= minlen <= maxlen
    requires root.Valid()
    modifies root.Repr
    ensures root.Valid() && fresh(root.Repr - old(root.Repr))
    ensures root.Tree == InsertAll(old(root.Tree), SentenceWindows(words, minlen, maxlen))
  {
    ghost var windows := SentenceWindows(words, minlen, maxlen);
    for start := 0 to WindowCount(|words|, minlen)
      invariant root.Valid() && fresh(root.Repr - old(root.Repr))
      invariant root.Tree == InsertAll(old(root.Tree), windows[..start])
    {
      var end := Min(|words|, start + maxlen);
      WindowAt(words, minlen, maxlen, start);
      InsertAllStep(old(root.Tree), windows, start);
      var r := AddToNode(root, words[start..end]);
    }
    assert windows[..|windows|] == windows;
  }

  /** The windows one piece of text contributes: none when it has no words. */
  lemma PieceWindows(piece: string, minlen: nat, maxlen: nat)
    requires 1 <= minlen <= maxlen
    ensures var words := SentenceWords(piece);
      AllWindows(DropEmpty([words]), minlen, maxlen) ==
        if |words| == 0 then [] else SentenceWindows(words, minlen, maxlen)
  {
    var words := SentenceWords(piece);
    assert [words][..0] == [];
    if |words| > 0 {
      assert DropEmpty([words]) == [words];
      assert [words][..0] == [];
    }
  }

  /** One pass of the outer loop of `build_tree` (phraser.py:64-78): the piece
      is cleaned and split into words, and unless it has none its windows are
      inserted. */
  method AddPiece(root: Node, piece: string, minlen: nat, maxlen: nat)
    requires 1 <= minlen <= maxlen
    requires root.Valid()
    modifies root.Repr
    ensures root.Valid() && fresh(root.Repr - old(root.Repr))
    ensures root.Tree == InsertAll(old(root.Tree), AllWindows(DropEmpty([SentenceWords(piece)]), minlen, maxlen))
  {
    var words := SentenceWords(piece);
    PieceWindows(piece, minlen, maxlen);
    if |words| == 0 {
      return;
    }
    InsertSentence(root, words, minlen, maxlen);
  }

  /** The outer loop of `build_tree` (phraser.py:64-78) over the pieces of
      the text between periods. */
  method InsertPieces(root: Node, pieces: seq<string>, minlen: nat, maxlen: nat)
    requires 1 <= minlen <= maxlen
    requires root.Valid()
    modifies root.Repr
    ensures root.Valid() && fresh(root.Repr - old(root.Repr))
    ensures root.Tree == InsertAll(old(root.Tree), AllWindows(DropEmpty(PieceWords(pieces)), minlen, maxlen))
  {
    for i := 0 to |pieces|
      invariant root.Valid() && fresh(root.Repr - old(root.Repr))
      invariant root.Tree == InsertAll(old(root.Tree), AllWindows(DropEmpty(PieceWords(pieces[..i])), minlen, maxlen))
    {
      PiecesStep(pieces, i, minlen, maxlen);
      InsertAllAppend(old(root.Tree), AllWindows(DropEmpty(PieceWords(pieces[..i])), minlen, maxlen),
        AllWindows(DropEmpty([SentenceWords(pieces[i])]), minlen, maxlen));
      AddPiece(root, pieces[i], minlen, maxlen);
    }
    assert pieces[..|pieces|] == pieces;
  }

  /** `build_tree(text)`: the returned root holds exactly the windows of every
      sentence of the text, inserted in text order. */
  method BuildTree(text: string, minlen: nat, maxlen: nat) returns (root: Node)
    requires 1 <= minlen <= maxlen
    ensures root.Valid() && fresh(root.Repr)
    ensures root.Tree == InsertAll(Leaf(0), AllWindows(Tokenize(text), minlen, maxlen))
  {
    root := new Node(0);
    var normalized := NormalizeEnds(text);
    var pieces := SplitOn(normalized, '.');
    InsertPieces(root, pieces, minlen, maxlen);
  }

  /** The windows of the first `i + 1` pieces are those of the first `i`
      followed by those of piece `i`. */
  lemma PiecesStep(pieces: seq<string>, i: nat, minlen: nat, maxlen: nat)
    requires i < |pieces| && 1 <= minlen <= maxlen
    ensures AllWindows(DropEmpty(PieceWords(pieces[..i + 1])), minlen, maxlen) ==
      AllWindows(DropEmpty(PieceWords(pieces[..i])), minlen, maxlen) +
        AllWindows(DropEmpty([SentenceWords(pieces[i])]), minlen, maxlen)
  {
    assert pieces[..i + 1] == pieces[..i] + [pieces[i]];
    PieceWordsAppend(pieces[..i], [pieces[i]]);
    var a, b := PieceWords(pieces[..i]), PieceWords([pieces[i]]);
    assert b == [SentenceWords(pieces[i])];
    DropEmptyAppend(a, b);
    AllWindowsAppend(DropEmpty(a), DropEmpty(b), minlen, maxlen);
  }
}
