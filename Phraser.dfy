/**
 * The three steps `main` runs on the text of the input file
 * (phraser.py:44-47): build the tree, collect the phrases from its root,
 * rank them. The lemmas restate what is collected in terms of the windows of
 * the text alone, without the tree.
 */
module Phraser {
  import opened Text
  import opened Tokenizer
  import opened Windows
  import opened TrieSpec
  import opened PhraseSpec
  import opened Nodes
  import opened Builder
  import opened Extraction
  import opened Ranking

  /** The phrase `p` is reported for the windows `ws`: it has at least
      `minlen` words, some window starts with it, and either no window extends
      it by a word or some one-word extension starts fewer windows than `p`
      itself (so `p` also occurs outside that longer phrase). */
  ghost predicate Reported(ws: seq<seq<string>>, p: seq<string>, minlen: nat) {
    |p| >= minlen && PrefixCount(ws, p) > 0 &&
    ((forall w :: PrefixCount(ws, p + [w]) == 0) ||
     (exists w :: 0 < PrefixCount(ws, p + [w]) < PrefixCount(ws, p)))
  }

  /** `k` is the text of a reported phrase: its words joined by single spaces. */
  ghost predicate ReportedText(ws: seq<seq<string>>, k: string, minlen: nat) {
    exists p :: Reported(ws, p, minlen) && k == Join(p)
  }

  /** `e` shows a reported phrase, joined by single spaces, with the number
      of windows that start with it. */
  ghost predicate ReportedEntry(ws: seq<seq<string>>, e: Entry, minlen: nat) {
    exists p :: Reported(ws, p, minlen) && e.phrase == Join(p) && e.count == PrefixCount(ws, p)
  }

  /** Below the node at `p`, the node at `p + [w]` is its child `w`. */
  lemma {:induction false} SubSnoc(t: Trie, p: seq<string>, w: string)
    requires Sub(t, p).Some?
    ensures var n := Sub(t, p).value;
      Sub(t, p + [w]) == if w in n.children then Some(n.children[w]) else None
    decreases |p|
  {
    if p != [] {
      assert (p + [w])[0] == p[0] && (p + [w])[1..] == p[1..] + [w];
      SubSnoc(t.children[p[0]], p[1..], w);
    }
  }

  /** Every window of the sentences of a text has at most `maxlen` clean words. */
  lemma WindowsClean(sentences: seq<seq<string>>, minlen: nat, maxlen: nat)
    requires 1 <= minlen <= maxlen
    requires forall j :: 0 <= j < |sentences| ==> IsSentence(sentences[j])
    ensures forall i :: 0 <= i < |AllWindows(sentences, minlen, maxlen)| ==>
      |AllWindows(sentences, minlen, maxlen)[i]| <= maxlen && AllCleanWords(AllWindows(sentences, minlen, maxlen)[i])
  {
    var ws := AllWindows(sentences, minlen, maxlen);
    AllWindowsShape(sentences, minlen, maxlen);
    forall i | 0 <= i < |ws|
      ensures AllCleanWords(ws[i])
    {
      var j: int, s: nat :| 0 <= j < |sentences| && SliceAt(ws[i], sentences[j], s);
      assert IsSentence(sentences[j]);
      assert forall x :: 0 <= x < |ws[i]| ==> ws[i][x] == sentences[j][s + x];
    }
  }

  /** A reported phrase never spans sentences: its words run consecutively
      inside one sentence. */
  lemma ReportedInOneSentence(ss: seq<seq<string>>, p: seq<string>, minlen: nat, maxlen: nat)
    requires 1 <= minlen <= maxlen
    requires Reported(AllWindows(ss, minlen, maxlen), p, minlen)
    ensures InOneSentence(p, ss)
  {
    var ws := AllWindows(ss, minlen, maxlen);
    PrefixCountWitness(ws, p);
    var i :| 0 <= i < |ws| && p <= ws[i];
    AllWindowsShape(ss, minlen, maxlen);
    var j, s :| 0 <= j < |ss| && SliceAt(ws[i], ss[j], s);
    assert SliceAt(p, ss[j], s);
  }

  /** The tree `build_tree` makes from a text keeps the root at count 0, every
      child count between 1 and its parent's, every path within `maxlen` words
      and every edge a clean word. */
  lemma BuiltTreeShape(text: string, minlen: nat, maxlen: nat)
    requires 1 <= minlen <= maxlen
    ensures var t := InsertAll(Leaf(0), AllWindows(Tokenize(text), minlen, maxlen));
      RootShape(t) && HeightAtMost(t, maxlen) && CleanLabels(t)
  {
    WindowsClean(Tokenize(text), minlen, maxlen);
    InsertAllInvariants(Leaf(0), AllWindows(Tokenize(text), minlen, maxlen), maxlen);
  }

  /** A path of the tree built from windows `ws` is recorded by the walk from
      the root exactly when its phrase is reported for `ws`. */
  lemma RecordedIffReported(ws: seq<seq<string>>, p: seq<string>, minlen: nat)
    requires 1 <= minlen
    ensures Recorded(InsertAll(Leaf(0), ws), p, 0, minlen) <==> Reported(ws, p, minlen)
  {
    var t := InsertAll(Leaf(0), ws);
    if |p| >= minlen {
      CountSemantics(ws, p);
      if IsPath(t, p) {
        var n := Sub(t, p).value;
        forall w
          ensures (w in n.children <==> PrefixCount(ws, p + [w]) > 0)
          ensures w in n.children ==> n.children[w].count == PrefixCount(ws, p + [w])
        {
          SubSnoc(t, p, w);
          CountSemantics(ws, p + [w]);
        }
        if n.children == map[] {
          assert forall w :: PrefixCount(ws, p + [w]) == 0;
        }
        if forall w :: PrefixCount(ws, p + [w]) == 0 {
          assert n.children.Keys == {};
        }
      }
    }
  }

  /** The phrases `get_phrases(build_tree(text), "", {}, 0)` collects: the
      reported phrases of the text's windows, each joined by single spaces and
      mapped to the number of windows that start with it. */
  method CollectPhrases(text: string, minlen: nat, maxlen: nat) returns (phrases: map<string, nat>)
    requires 1 <= minlen <= maxlen
    ensures forall k :: k in phrases <==> ReportedText(AllWindows(Tokenize(text), minlen, maxlen), k, minlen)
    ensures forall p :: Reported(AllWindows(Tokenize(text), minlen, maxlen), p, minlen) ==>
      Join(p) in phrases && phrases[Join(p)] == PrefixCount(AllWindows(Tokenize(text), minlen, maxlen), p)
    ensures forall k :: k in phrases ==> minlen <= |SplitWhitespace(k)| <= maxlen
    ensures forall k :: k in phrases ==> exists p :: k == Join(p) && InOneSentence(p, Tokenize(text))
  {
    var tree := BuildTree(text, minlen, maxlen);
    phrases := GetPhrases(tree, "", map[], 0, minlen);
    ghost var ws := AllWindows(Tokenize(text), minlen, maxlen);
    ghost var t := tree.Tree;
    BuiltTreeShape(text, minlen, maxlen);
    forall k | k in phrases
      ensures ReportedText(ws, k, minlen)
      ensures minlen <= |SplitWhitespace(k)| <= maxlen
      ensures exists p :: k == Join(p) && InOneSentence(p, Tokenize(text))
    {
      RootWrites(t, minlen, maxlen, k, phrases[k]);
      var p :| Recorded(t, p, 0, minlen) && k == Join(p) && phrases[k] == CountAt(t, p);
      RecordedIffReported(ws, p, minlen);
      ReportedInOneSentence(Tokenize(text), p, minlen, maxlen);
    }
    forall p | Reported(ws, p, minlen)
      ensures Join(p) in phrases && phrases[Join(p)] == PrefixCount(ws, p)
    {
      RecordedIffReported(ws, p, minlen);
      RootWrites(t, minlen, maxlen, Join(p), CountAt(t, p));
      assert Written(t, "", 0, minlen, Join(p));
      RootWritesUnique(t, minlen, maxlen, Join(p), phrases[Join(p)], CountAt(t, p));
      CountSemantics(ws, p);
    }
  }

  /** A ranking of the collected phrases, read back as reported phrases of
      the windows. */
  lemma RankedReported(ws: seq<seq<string>>, minlen: nat, phrases: map<string, nat>, ranked: seq<Entry>)
    requires forall k :: k in phrases <==> ReportedText(ws, k, minlen)
    requires forall p :: Reported(ws, p, minlen) ==> Join(p) in phrases && phrases[Join(p)] == PrefixCount(ws, p)
    requires forall n :: 0 <= n < |ranked| ==> ranked[n].phrase in phrases && ranked[n].count == phrases[ranked[n].phrase]
    requires forall p, n :: p in phrases && 0 <= n < |ranked| && !Ranked(ranked, p) ==> phrases[p] <= ranked[n].count
    ensures forall n :: 0 <= n < |ranked| ==> ReportedEntry(ws, ranked[n], minlen)
    ensures forall p, n ::
      Reported(ws, p, minlen) && !Ranked(ranked, Join(p)) && 0 <= n < |ranked| ==> PrefixCount(ws, p) <= ranked[n].count
  {
    forall n | 0 <= n < |ranked|
      ensures ReportedEntry(ws, ranked[n], minlen)
    {
      var k := ranked[n].phrase;
      assert ReportedText(ws, k, minlen);
      var p :| Reported(ws, p, minlen) && k == Join(p);
      assert phrases[Join(p)] == PrefixCount(ws, p);
    }
    forall p, n | Reported(ws, p, minlen) && !Ranked(ranked, Join(p)) && 0 <= n < |ranked|
      ensures PrefixCount(ws, p) <= ranked[n].count
    {
      assert Join(p) in phrases && phrases[Join(p)] == PrefixCount(ws, p);
    }
  }

  /** `main` without its file handling: the top `topX` phrases of the text,
      ranked, with the phrase dictionary they were chosen from. */
  method TopPhrases(text: string, minlen: nat, maxlen: nat, topX: nat)
    returns (phrases: map<string, nat>, ranked: seq<Entry>)
    requires 1 <= minlen <= maxlen
    ensures forall k :: k in phrases <==> ReportedText(AllWindows(Tokenize(text), minlen, maxlen), k, minlen)
    ensures forall p :: Reported(AllWindows(Tokenize(text), minlen, maxlen), p, minlen) ==>
      Join(p) in phrases && phrases[Join(p)] == PrefixCount(AllWindows(Tokenize(text), minlen, maxlen), p)
    ensures |ranked| == if topX <= |phrases| then topX else |phrases|
    ensures forall k :: k in phrases ==> minlen <= |SplitWhitespace(k)| <= maxlen
    ensures forall k :: k in phrases ==> exists p :: k == Join(p) && InOneSentence(p, Tokenize(text))
    ensures forall n :: 0 <= n < |ranked| ==> ranked[n].rank == n + 1
    ensures forall n :: 0 <= n < |ranked| ==> ReportedEntry(AllWindows(Tokenize(text), minlen, maxlen), ranked[n], minlen)
    ensures forall n, m :: 0 <= n < m < |ranked| ==> ranked[n].count >= ranked[m].count
    ensures forall n, m :: 0 <= n < m < |ranked| ==> ranked[n].phrase != ranked[m].phrase
    ensures forall p, n ::
      Reported(AllWindows(Tokenize(text), minlen, maxlen), p, minlen) && !Ranked(ranked, Join(p)) && 0 <= n < |ranked|
      ==> PrefixCount(AllWindows(Tokenize(text), minlen, maxlen), p) <= ranked[n].count
  {
    phrases := CollectPhrases(text, minlen, maxlen);
    ranked := RankTop(phrases, topX);
    RankedReported(AllWindows(Tokenize(text), minlen, maxlen), minlen, phrases, ranked);
  }
}
