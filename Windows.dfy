/**
 * The windows `build_tree` inserts into the trie (phraser.py:75-78): for
 * every start index of a sentence that leaves room for `minlen` words, the
 * longest run of at most `maxlen` words from that start.
 */
module Windows {

  function Min(a: int, b: int): int {
    if a <= b then a else b
  }

  /** The number of start indices `range(len(words) - minlen + 1)` yields. */
  function WindowCount(n: nat, minlen: nat): nat {
    if n >= minlen then n - minlen + 1 else 0
  }

  /** The windows of one sentence, one per start index, in order of their start. */
  function SentenceWindows(words: seq<string>, minlen: nat, maxlen: nat): (windows: seq<seq<string>>)
    requires 1 <= minlen <= maxlen
    ensures |windows| == WindowCount(|words|, minlen)
    ensures forall s :: 0 <= s < |windows| ==>
      minlen <= |windows[s]| <= maxlen && s + |windows[s]| <= |words| &&
      windows[s] == words[s..s + |windows[s]|]
    ensures forall s :: 0 <= s < |windows| ==>
      |windows[s]| == maxlen || s + |windows[s]| == |words|
  {
    var count := WindowCount(|words|, minlen);
    var windows := seq(count, s requires 0 <= s < count => words[s..Min(|words|, s + maxlen)]);
    assert forall s :: 0 <= s < count ==> |windows[s]| == Min(|words|, s + maxlen) - s;
    windows
  }

  /** The window at start index `s` is `words[s:min(len(words), s + maxlen)]`
      (phraser.py:77-78). */
  lemma WindowAt(words: seq<string>, minlen: nat, maxlen: nat, s: nat)
    requires 1 <= minlen <= maxlen && s < WindowCount(|words|, minlen)
    ensures s <= Min(|words|, s + maxlen) <= |words|
    ensures SentenceWindows(words, minlen, maxlen)[s] == words[s..Min(|words|, s + maxlen)]
  {
  }

  /** A sentence shorter than `minlen` words yields no window. */
  lemma ShortSentenceNoWindows(words: seq<string>, minlen: nat, maxlen: nat)
    requires 1 <= minlen <= maxlen
    requires |words| < minlen
    ensures SentenceWindows(words, minlen, maxlen) == []
  {
  }

  /** The windows of all sentences, sentence by sentence (the two loops of
      phraser.py:64-78). */
  function AllWindows(sentences: seq<seq<string>>, minlen: nat, maxlen: nat): (windows: seq<seq<string>>)
    requires 1 <= minlen <= maxlen
    ensures forall i :: 0 <= i < |windows| ==> minlen <= |windows[i]| <= maxlen
  {
    if sentences == [] then []
    else
      var before := AllWindows(sentences[..|sentences| - 1], minlen, maxlen);
      var last := SentenceWindows(sentences[|sentences| - 1], minlen, maxlen);
      assert forall i :: |before| <= i < |before + last| ==> (before + last)[i] == last[i - |before|];
      before + last
  }

  /** `w` is a run of consecutive words of one of the sentences. */
  ghost predicate InOneSentence(w: seq<string>, sentences: seq<seq<string>>) {
    exists j, s :: 0 <= j < |sentences| && SliceAt(w, sentences[j], s)
  }

  /** `w` is the run of words of `sentence` that starts at index `s`. */
  predicate SliceAt(w: seq<string>, sentence: seq<string>, s: nat) {
    s + |w| <= |sentence| && w == sentence[s..s + |w|]
  }

  /** Every window of a text has between `minlen` and `maxlen` words, all taken
      consecutively from a single sentence. */
  lemma {:induction false} AllWindowsShape(sentences: seq<seq<string>>, minlen: nat, maxlen: nat)
    requires 1 <= minlen <= maxlen
    ensures forall i :: 0 <= i < |AllWindows(sentences, minlen, maxlen)| ==>
      var w := AllWindows(sentences, minlen, maxlen)[i];
      minlen <= |w| <= maxlen && InOneSentence(w, sentences)
  {
    if sentences != [] {
      var n := |sentences| - 1;
      var init := sentences[..n];
      AllWindowsShape(init, minlen, maxlen);
      var before := AllWindows(init, minlen, maxlen);
      var last := SentenceWindows(sentences[n], minlen, maxlen);
      var all := before + last;
      forall i | 0 <= i < |all|
        ensures minlen <= |all[i]| <= maxlen && InOneSentence(all[i], sentences)
      {
        var w := all[i];
        if i < |before| {
          assert w == before[i];
          var j, s :| 0 <= j < |init| && SliceAt(w, init[j], s);
          assert init[j] == sentences[j];
        } else {
          var s := i - |before|;
          assert w == last[s];
          assert SliceAt(w, sentences[n], s);
        }
      }
    }
  }

  /** A sentence yields exactly `max(0, n - minlen + 1)` windows, so a text
      yields the sum of that over its sentences. */
  lemma {:induction false} AllWindowsCount(sentences: seq<seq<string>>, minlen: nat, maxlen: nat)
    requires 1 <= minlen <= maxlen
    ensures |AllWindows(sentences, minlen, maxlen)| == TotalWindowCount(sentences, minlen)
  {
    if sentences != [] {
      AllWindowsCount(sentences[..|sentences| - 1], minlen, maxlen);
    }
  }

  function TotalWindowCount(sentences: seq<seq<string>>, minlen: nat): nat
  {
    if sentences == [] then 0
    else TotalWindowCount(sentences[..|sentences| - 1], minlen) + WindowCount(|sentences[|sentences| - 1]|, minlen)
  }

  /** The windows of two runs of sentences side by side are those of each run. */
  lemma {:induction false} AllWindowsAppend(xs: seq<seq<string>>, ys: seq<seq<string>>, minlen: nat, maxlen: nat)
    requires 1 <= minlen <= maxlen
    ensures AllWindows(xs + ys, minlen, maxlen) == AllWindows(xs, minlen, maxlen) + AllWindows(ys, minlen, maxlen)
    decreases |ys|
  {
    if ys == [] {
      assert xs + ys == xs;
    } else {
      var all, init, last := xs + ys, ys[..|ys| - 1], ys[|ys| - 1];
      assert all[..|all| - 1] == xs + init;
      assert all[|all| - 1] == last;
      AllWindowsAppend(xs, init, minlen, maxlen);
      calc {
        AllWindows(all, minlen, maxlen);
        AllWindows(xs + init, minlen, maxlen) + SentenceWindows(last, minlen, maxlen);
        (AllWindows(xs, minlen, maxlen) + AllWindows(init, minlen, maxlen)) + SentenceWindows(last, minlen, maxlen);
        AllWindows(xs, minlen, maxlen) + (AllWindows(init, minlen, maxlen) + SentenceWindows(last, minlen, maxlen));
      }
    }
  }

  /** The windows of two sentences are those of the first, then those of the second. */
  lemma AllWindowsTwo(x: seq<string>, y: seq<string>, minlen: nat, maxlen: nat)
    requires 1 <= minlen <= maxlen
    ensures AllWindows([x, y], minlen, maxlen) == SentenceWindows(x, minlen, maxlen) + SentenceWindows(y, minlen, maxlen)
  {
    var xs := [x, y];
    assert xs[..1] == [x];
    assert [x][..0] == [];
    assert AllWindows([x], minlen, maxlen) == SentenceWindows(x, minlen, maxlen);
    assert AllWindows(xs, minlen, maxlen) == AllWindows([x], minlen, maxlen) + SentenceWindows(y, minlen, maxlen);
  }
}
