/**
 * The worked examples of the phrase counter, stated on the windows of each
 * text and on what the walk reports for them. By the contract of
 * `Phraser.CollectPhrases`, the dictionary `get_phrases` builds for such a
 * text maps exactly the phrases reported here, joined by single spaces, to
 * the counts given here.
 */
module Scenarios {
  import opened Text
  import opened Tokenizer
  import opened Windows
  import opened TrieSpec
  import opened Phraser
  import opened Ranking

  /** A sentence of three words has two windows of at least two words: the
      first is clipped to `maxlen` words, the second runs to the end. */
  lemma ThreeWordWindows(x: string, y: string, z: string, maxlen: nat)
    requires maxlen >= 2
    ensures SentenceWindows([x, y, z], 2, maxlen) == if maxlen == 2 then [[x, y], [y, z]] else [[x, y, z], [y, z]]
  {
    var s := [x, y, z];
    var r := SentenceWindows(s, 2, maxlen);
    assert |r| == 2;
    assert r[1] == s[1..3] == [y, z];
    if maxlen == 2 {
      assert r[0] == s[0..2] == [x, y];
    } else {
      assert r[0] == s[0..3] == s;
    }
    assert r == [r[0], r[1]];
  }

  /** How many of four windows start with `q`. */
  lemma PrefixCountFour(a: seq<string>, b: seq<string>, c: seq<string>, d: seq<string>, q: seq<string>)
    ensures PrefixCount([a, b, c, d], q) ==
      (if q <= a then 1 else 0) + (if q <= b then 1 else 0) + (if q <= c then 1 else 0) + (if q <= d then 1 else 0)
  {
    PrefixCountSnoc([], a, q);
    assert [] + [a] == [a];
    PrefixCountSnoc([a], b, q);
    assert [a] + [b] == [a, b];
    PrefixCountSnoc([a, b], c, q);
    assert [a, b] + [c] == [a, b, c];
    PrefixCountSnoc([a, b, c], d, q);
    assert [a, b, c] + [d] == [a, b, c, d];
  }

  /** A phrase that is reported is the start of some window. */
  lemma ReportedStartsWindow(ws: seq<seq<string>>, p: seq<string>, minlen: nat)
    requires Reported(ws, p, minlen)
    ensures exists i :: 0 <= i < |ws| && p <= ws[i]
  {
    PrefixCountWitness(ws, p);
  }

  // ---------------------------------------------------------------------------
  // "a b c. a b d." with minlen = maxlen = 2

  lemma WindowsBranching()
    ensures AllWindows(Tokenize("a b c. a b d."), 2, 2) == [["a", "b"], ["b", "c"], ["a", "b"], ["b", "d"]]
  {
    var x, y := ["a", "b", "c"], ["a", "b", "d"];
    TextBranching();
    TwoSentenceWindows(x, y, 2, 2);
    ThreeWordWindows("a", "b", "c", 2);
    ThreeWordWindows("a", "b", "d", 2);
  }

  lemma TextBranching()
    ensures Join(["a", "b", "c"]) + ". " + Join(["a", "b", "d"]) + "." == "a b c. a b d."
  {
  }

  /** The windows of two sentences written out, each ended by a period. */
  lemma TwoSentenceWindows(x: seq<string>, y: seq<string>, minlen: nat, maxlen: nat)
    requires IsSentence(x) && IsSentence(y) && 1 <= minlen <= maxlen
    ensures AllWindows(Tokenize(Join(x) + ". " + Join(y) + "."), minlen, maxlen) ==
      SentenceWindows(x, minlen, maxlen) + SentenceWindows(y, minlen, maxlen)
  {
    TwoSentences(x, y);
    AllWindowsTwo(x, y, minlen, maxlen);
  }


  /** "a b" is reported twice, "b c" and "b d" once each, and nothing else. */
  lemma BranchingPrefix(p: seq<string>)
    ensures var ws := AllWindows(Tokenize("a b c. a b d."), 2, 2);
      (Reported(ws, p, 2) <==> p == ["a", "b"] || p == ["b", "c"] || p == ["b", "d"]) &&
      PrefixCount(ws, ["a", "b"]) == 2 && PrefixCount(ws, ["b", "c"]) == 1 && PrefixCount(ws, ["b", "d"]) == 1
  {
    WindowsBranching();
    ReportedBranching(p);
  }

  lemma ReportedBranching(p: seq<string>)
    ensures var ws := [["a", "b"], ["b", "c"], ["a", "b"], ["b", "d"]];
      (Reported(ws, p, 2) <==> p == ["a", "b"] || p == ["b", "c"] || p == ["b", "d"]) &&
      PrefixCount(ws, ["a", "b"]) == 2 && PrefixCount(ws, ["b", "c"]) == 1 && PrefixCount(ws, ["b", "d"]) == 1
  {
    var ab, bc, bd := ["a", "b"], ["b", "c"], ["b", "d"];
    var ws := [ab, bc, ab, bd];
    PrefixCountFour(ab, bc, ab, bd, ab);
    PrefixCountFour(ab, bc, ab, bd, bc);
    PrefixCountFour(ab, bc, ab, bd, bd);
    assert ab[..2] == ab && bc[..2] == bc && bd[..2] == bd;
    assert ab[0] != bc[0] && ab[0] != bd[0] && bc[1] != bd[1];
    if p == ab || p == bc || p == bd {
      forall w ensures PrefixCount(ws, p + [w]) == 0 {
        PrefixCountShorter(ws, p + [w]);
      }
    }
    if Reported(ws, p, 2) {
      ReportedStartsWindow(ws, p, 2);
    }
  }

  // ---------------------------------------------------------------------------
  // "x y" with minlen = 2 and maxlen = 5

  lemma WindowsClipped()
    ensures AllWindows(Tokenize("x y"), 2, 5) == [["x", "y"]]
  {
    var s: seq<string> := ["x", "y"];
    TextClipped();
    OneSentenceWindows(s, 2, 5);
    var r := SentenceWindows(s, 2, 5);
    assert |r| == 1 && r[0] == s[0..2] == s;
  }

  lemma TextClipped()
    ensures "" + Join(["x", "y"]) == "x y"
  {
  }

  /** The windows of one sentence written out without a period. */
  lemma OneSentenceWindows(x: seq<string>, minlen: nat, maxlen: nat)
    requires IsSentence(x) && 1 <= minlen <= maxlen
    ensures AllWindows(Tokenize("" + Join(x)), minlen, maxlen) == SentenceWindows(x, minlen, maxlen)
  {
    CleanSentence("", x);
    AllWindowsOne(x, minlen, maxlen);
  }


  /** The one window is clipped to the sentence and is the one phrase reported. */
  lemma ClippedWindow(p: seq<string>)
    ensures AllWindows(Tokenize("x y"), 2, 5) == [["x", "y"]]
    ensures var ws := AllWindows(Tokenize("x y"), 2, 5);
      (Reported(ws, p, 2) <==> p == ["x", "y"]) && PrefixCount(ws, ["x", "y"]) == 1
  {
    WindowsClipped();
    ReportedClipped(p);
  }

  lemma ReportedClipped(p: seq<string>)
    ensures var ws := [["x", "y"]];
      (Reported(ws, p, 2) <==> p == ["x", "y"]) && PrefixCount(ws, ["x", "y"]) == 1
  {
    var s: seq<string> := ["x", "y"];
    var ws := [s];
    PrefixCountSnoc([], s, s);
    PrefixCountSnoc([], s, p);
    assert [] + [s] == ws;
    forall w ensures PrefixCount(ws, s + [w]) == 0 {
      PrefixCountShorter(ws, s + [w]);
    }
    if Reported(ws, p, 2) {
      assert p == s[..|p|];
    }
  }

  // ---------------------------------------------------------------------------
  // "a." with minlen = maxlen = 2

  /** A one-word sentence is below `minlen`: no window, no phrase. */
  lemma ShortSentence(p: seq<string>)
    ensures AllWindows(Tokenize("a."), 2, 2) == []
    ensures !Reported(AllWindows(Tokenize("a."), 2, 2), p, 2)
  {
    WindowsShort();
  }

  lemma WindowsShort()
    ensures AllWindows(Tokenize("a."), 2, 2) == []
  {
    var s: seq<string> := ["a"];
    assert Join(s) + "." == "a.";
    SentenceWithPeriod(s);
    AllWindowsOne(s, 2, 2);
    ShortSentenceNoWindows(s, 2, 2);
  }

  /** A sentence followed by a period gives back its words. */
  lemma SentenceWithPeriod(x: seq<string>)
    requires IsSentence(x)
    ensures Tokenize(Join(x) + ".") == [x]
  {
    var a := Join(x);
    assert a + "." == a + ['.'] + "";
    SentenceEndSplits(a, '.', "");
    assert "" + a == a;
    CleanSentence("", x);
    EmptyText();
  }

  /** The windows of a single sentence. */
  lemma AllWindowsOne(x: seq<string>, minlen: nat, maxlen: nat)
    requires 1 <= minlen <= maxlen
    ensures AllWindows([x], minlen, maxlen) == SentenceWindows(x, minlen, maxlen)
  {
    assert [x][..0] == [];
  }

  // ---------------------------------------------------------------------------
  // "p q r. p q r." with minlen = 2 and maxlen = 3

  lemma WindowsEqualCount()
    ensures AllWindows(Tokenize("p q r. p q r."), 2, 3) == [["p", "q", "r"], ["q", "r"], ["p", "q", "r"], ["q", "r"]]
  {
    var s := ["p", "q", "r"];
    TextEqualCount();
    TwoSentenceWindows(s, s, 2, 3);
    ThreeWordWindows("p", "q", "r", 3);
  }

  lemma TextEqualCount()
    ensures Join(["p", "q", "r"]) + ". " + Join(["p", "q", "r"]) + "." == "p q r. p q r."
  {
  }


  /** "p q" starts two windows, but so does its only continuation "p q r":
      the count does not drop, so "p q" is not reported. */
  lemma PQNotReported()
    ensures !Reported([["p", "q", "r"], ["q", "r"], ["p", "q", "r"], ["q", "r"]], ["p", "q"], 2)
  {
    var a, b := ["p", "q", "r"], ["q", "r"];
    var ws, pq := [a, b, a, b], ["p", "q"];
    PrefixCountFour(a, b, a, b, pq);
    assert a[..2] == pq;
    assert b[0] != pq[0];
    assert PrefixCount(ws, pq) == 2;
    forall w ensures PrefixCount(ws, pq + [w]) == if w == "r" then 2 else 0 {
      PrefixCountFour(a, b, a, b, pq + [w]);
      if pq + [w] <= a {
        assert (pq + [w])[2] == a[2];
      }
      if w == "r" {
        assert pq + [w] == a;
      }
      assert !(pq + [w] <= b);
    }
    assert PrefixCount(ws, pq + ["r"]) == 2;
  }

  /** Only the leaves "p q r" and "q r" are reported, twice each; the prefix
      "p q" is not, although it starts two windows too. */
  lemma EqualCountPrefix(p: seq<string>)
    ensures var ws := AllWindows(Tokenize("p q r. p q r."), 2, 3);
      (Reported(ws, p, 2) <==> p == ["p", "q", "r"] || p == ["q", "r"]) &&
      PrefixCount(ws, ["p", "q", "r"]) == 2 && PrefixCount(ws, ["q", "r"]) == 2 && PrefixCount(ws, ["p", "q"]) == 2
  {
    WindowsEqualCount();
    ReportedEqualCount(p);
  }

  lemma ReportedEqualCount(p: seq<string>)
    ensures var ws := [["p", "q", "r"], ["q", "r"], ["p", "q", "r"], ["q", "r"]];
      (Reported(ws, p, 2) <==> p == ["p", "q", "r"] || p == ["q", "r"]) &&
      PrefixCount(ws, ["p", "q", "r"]) == 2 && PrefixCount(ws, ["q", "r"]) == 2 && PrefixCount(ws, ["p", "q"]) == 2
  {
    var a, b := ["p", "q", "r"], ["q", "r"];
    var ws := [a, b, a, b];
    PrefixCountFour(a, b, a, b, p);
    PrefixCountFour(a, b, a, b, a);
    PrefixCountFour(a, b, a, b, b);
    PrefixCountFour(a, b, a, b, ["p", "q"]);
    assert a[..2] == ["p", "q"] && a[..3] == a && b[..2] == b;
    assert b[0] != a[0];
    if p == a || p == b {
      forall w ensures PrefixCount(ws, p + [w]) == 0 {
        PrefixCountFour(a, b, a, b, p + [w]);
        assert !(p + [w] <= a) && !(p + [w] <= b) by {
          if p == b {
            assert (p + [w])[0] != a[0];
          }
        }
      }
    }
    if Reported(ws, p, 2) {
      PQNotReported();
      if p <= a {
        assert p == a[..|p|] && (|p| == 2 || |p| == 3);
      } else {
        assert p <= b;
        assert p == b[..|p|] && |p| == 2;
      }
    }
  }

  // ---------------------------------------------------------------------------
  // The whole pipeline on "a b c. a b d."

  /** A single ranked entry that comes from a reported phrase of the windows
      of "a b c. a b d.", and that either is "a b" or has a count no lower
      than that of "a b", is "a b" with count 2. */
  lemma FirstOfBranching(ws: seq<seq<string>>, ranked: seq<Entry>, p: seq<string>)
    requires ws == [["a", "b"], ["b", "c"], ["a", "b"], ["b", "d"]]
    requires |ranked| == 1 && ranked[0].rank == 1
    requires Reported(ws, p, 2) && ranked[0].phrase == Join(p) && ranked[0].count == PrefixCount(ws, p)
    requires ranked[0].phrase == "a b" || PrefixCount(ws, ["a", "b"]) <= ranked[0].count
    ensures ranked == [Entry(1, 2, "a b")]
  {
    ReportedBranching(p);
    JoinsBranching();
    if p == ["a", "b"] {
      assert ranked[0] == Entry(1, 2, "a b");
    } else {
      assert false;
    }
  }

  lemma JoinsBranching()
    ensures Join(["a", "b"]) == "a b" && Join(["b", "c"]) == "b c" && Join(["b", "d"]) == "b d"
  {
  }

  /** With `top_x = 1` the single ranked line is `#1:\t(2) a b`. */
  method TopOfBranchingPrefix() returns (ranked: seq<Entry>)
    ensures ranked == [Entry(1, 2, "a b")]
  {
    var text := "a b c. a b d.";
    var phrases;
    phrases, ranked := TopPhrases(text, 2, 2, 1);
    ghost var ws := AllWindows(Tokenize(text), 2, 2);
    WindowsBranching();
    assert ws == [["a", "b"], ["b", "c"], ["a", "b"], ["b", "d"]];
    ghost var ab := ["a", "b"];
    ReportedBranching(ab);
    JoinsBranching();
    assert Reported(ws, ab, 2) && Join(ab) == "a b";
    assert "a b" in phrases;
    assert |phrases| >= 1 by {
      assert "a b" in phrases.Keys;
    }
    assert |ranked| == 1;
    ghost var p :| Reported(ws, p, 2) && ranked[0].phrase == Join(p) && ranked[0].count == PrefixCount(ws, p);
    if ranked[0].phrase != "a b" {
      assert !Ranked(ranked, Join(ab));
    }
    FirstOfBranching(ws, ranked, p);
  }
}
