/**
 * What the depth-first walk `get_phrases` (phraser.py:123-142) writes into
 * the phrase dictionary, stated on the tree value: first as the walk itself
 * sees it (`Writes`), then by the paths of the tree (`Recorded`), and finally,
 * for a tree as `build_tree` makes it, as the phrase text of each path.
 */
module PhraseSpec {
  import opened Text
  import opened TrieSpec

  /** Whether the walk records the node it visits at `depth` words below the
      root: only at depth `minlen` or more, and only for a leaf
      (phraser.py:128-131) or for a node with some child of strictly smaller
      count (phraser.py:138-140). */
  predicate Fires(t: Trie, depth: nat, minlen: nat) {
    depth >= minlen &&
    (t.children == map[] || exists w :: w in t.children && t.count > t.children[w].count)
  }

  /** The visit of `t` with accumulated text `current` at `depth`, or one of
      the visits it makes below, writes `phrases[k] = v`. */
  ghost predicate Writes(t: Trie, current: string, depth: nat, minlen: nat, k: string, v: nat)
    decreases t
  {
    (Fires(t, depth, minlen) && k == Strip(current) && v == t.count) ||
    exists w :: w in t.children && Writes(t.children[w], current + w + " ", depth + 1, minlen, k, v)
  }

  /** Some visit in the subtree writes the key `k`. */
  ghost predicate Written(t: Trie, current: string, depth: nat, minlen: nat, k: string) {
    exists v :: Writes(t, current, depth, minlen, k, v)
  }

  /** What the loop pass for child `w` (phraser.py:135-142) writes: the node's
      own phrase when the child's count is smaller, then everything the visit of
      the child writes. */
  ghost predicate ChildWrites(t: Trie, current: string, depth: nat, minlen: nat, w: string, k: string, v: nat)
    requires w in t.children
  {
    (depth >= minlen && t.count > t.children[w].count && k == Strip(current) && v == t.count) ||
    Writes(t.children[w], current + w + " ", depth + 1, minlen, k, v)
  }

  /** What the loop passes for the children in `ws` write. */
  ghost predicate PassesWrite(t: Trie, current: string, depth: nat, minlen: nat, ws: set<string>, k: string, v: nat) {
    exists w :: w in ws && w in t.children && ChildWrites(t, current, depth, minlen, w, k, v)
  }

  ghost predicate PassesWritten(t: Trie, current: string, depth: nat, minlen: nat, ws: set<string>, k: string) {
    exists v :: PassesWrite(t, current, depth, minlen, ws, k, v)
  }

  /** Away from the early return for a recorded leaf, a visit writes what its
      loop passes over all children write. */
  lemma WritesByPasses(t: Trie, current: string, depth: nat, minlen: nat, k: string, v: nat)
    requires !(t.children == map[] && depth >= minlen)
    ensures Writes(t, current, depth, minlen, k, v) <==> PassesWrite(t, current, depth, minlen, t.children.Keys, k, v)
  {
    if Writes(t, current, depth, minlen, k, v) {
      if Fires(t, depth, minlen) && k == Strip(current) && v == t.count {
        var w :| w in t.children && t.count > t.children[w].count;
        assert ChildWrites(t, current, depth, minlen, w, k, v);
      } else {
        var w :| w in t.children && Writes(t.children[w], current + w + " ", depth + 1, minlen, k, v);
        assert ChildWrites(t, current, depth, minlen, w, k, v);
      }
    }
  }

  /** A recorded leaf writes exactly its own phrase and count. */
  lemma WritesAtLeaf(t: Trie, current: string, depth: nat, minlen: nat, k: string, v: nat)
    requires t.children == map[] && depth >= minlen
    ensures Writes(t, current, depth, minlen, k, v) <==> k == Strip(current) && v == t.count
  {
  }

  // ---------------------------------------------------------------------------
  // The same by paths

  /** The node at `path` below `t`, itself `depth` words below the root, is
      one the walk records. */
  ghost predicate Recorded(t: Trie, path: seq<string>, depth: nat, minlen: nat) {
    match Sub(t, path)
    case Some(n) => Fires(n, depth + |path|, minlen)
    case None => false
  }

  /** A path that starts with a child's word is that child's path. */
  lemma RecordedCons(t: Trie, w: string, q: seq<string>, depth: nat, minlen: nat)
    requires w in t.children
    ensures Recorded(t, [w] + q, depth, minlen) == Recorded(t.children[w], q, depth + 1, minlen)
    ensures CountAt(t, [w] + q) == CountAt(t.children[w], q)
  {
    var p := [w] + q;
    assert p[0] == w && p[1..] == q;
    assert Sub(t, p) == Sub(t.children[w], q);
  }

  /** The accumulated text grows by one word and one space per level. */
  lemma SpacedCons(current: string, w: string, q: seq<string>)
    ensures current + Spaced([w] + q) == current + w + " " + Spaced(q)
  {
    var p := [w] + q;
    assert p[0] == w && p[1..] == q;
  }

  /** Some recorded path has the stripped text `k` and the count `v`. */
  ghost predicate ByRecordedPath(t: Trie, current: string, depth: nat, minlen: nat, k: string, v: nat) {
    exists p :: Recorded(t, p, depth, minlen) && k == Strip(current + Spaced(p)) && v == CountAt(t, p)
  }

  /** A node the walk records is the recorded empty path below itself. */
  lemma RecordedHere(t: Trie, current: string, depth: nat, minlen: nat)
    requires Fires(t, depth, minlen)
    ensures ByRecordedPath(t, current, depth, minlen, Strip(current), t.count)
  {
    assert current + Spaced([]) == current;
    assert Recorded(t, [], depth, minlen);
  }

  /** A recorded path below child `w` is a recorded path of `t` one word
      longer, with the same text and count. */
  lemma RecordedBelow(t: Trie, w: string, current: string, depth: nat, minlen: nat, k: string, v: nat)
    requires w in t.children
    requires ByRecordedPath(t.children[w], current + w + " ", depth + 1, minlen, k, v)
    ensures ByRecordedPath(t, current, depth, minlen, k, v)
  {
    var c := t.children[w];
    var q :| Recorded(c, q, depth + 1, minlen) && k == Strip(current + w + " " + Spaced(q)) && v == CountAt(c, q);
    RecordedCons(t, w, q, depth, minlen);
    SpacedCons(current, w, q);
    assert Recorded(t, [w] + q, depth, minlen);
  }

  /** Every write of the walk comes from a recorded path. */
  lemma {:induction false} WritesRecorded(t: Trie, current: string, depth: nat, minlen: nat, k: string, v: nat)
    requires Writes(t, current, depth, minlen, k, v)
    ensures ByRecordedPath(t, current, depth, minlen, k, v)
    decreases t
  {
    if Fires(t, depth, minlen) && k == Strip(current) && v == t.count {
      RecordedHere(t, current, depth, minlen);
    } else {
      var w :| w in t.children && Writes(t.children[w], current + w + " ", depth + 1, minlen, k, v);
      WritesRecorded(t.children[w], current + w + " ", depth + 1, minlen, k, v);
      RecordedBelow(t, w, current, depth, minlen, k, v);
    }
  }

  /** Every recorded path is written by the walk. */
  lemma {:induction false} RecordedWrites(t: Trie, p: seq<string>, current: string, depth: nat, minlen: nat)
    requires Recorded(t, p, depth, minlen)
    ensures Writes(t, current, depth, minlen, Strip(current + Spaced(p)), CountAt(t, p))
    decreases |p|
  {
    if p == [] {
      assert current + Spaced(p) == current;
    } else {
      var w, q := p[0], p[1..];
      assert p == [w] + q;
      RecordedCons(t, w, q, depth, minlen);
      SpacedCons(current, w, q);
      RecordedWrites(t.children[w], q, current + w + " ", depth + 1, minlen);
    }
  }

  /** The walk writes `k := v` exactly for the recorded paths: the key is the
      accumulated text of the path, stripped, and the value the count of its
      node. */
  lemma WritesIffRecorded(t: Trie, current: string, depth: nat, minlen: nat, k: string, v: nat)
    ensures Writes(t, current, depth, minlen, k, v) <==>
      exists p :: Recorded(t, p, depth, minlen) && k == Strip(current + Spaced(p)) && v == CountAt(t, p)
  {
    if Writes(t, current, depth, minlen, k, v) {
      WritesRecorded(t, current, depth, minlen, k, v);
    }
    if exists p :: Recorded(t, p, depth, minlen) && k == Strip(current + Spaced(p)) && v == CountAt(t, p) {
      var p :| Recorded(t, p, depth, minlen) && k == Strip(current + Spaced(p)) && v == CountAt(t, p);
      RecordedWrites(t, p, current, depth, minlen);
    }
  }

  /** A recorded path has at least `minlen` words counted from the root. */
  lemma RecordedLength(t: Trie, p: seq<string>, depth: nat, minlen: nat)
    requires Recorded(t, p, depth, minlen)
    ensures IsPath(t, p) && depth + |p| >= minlen
  {
  }

  // ---------------------------------------------------------------------------
  // From the root of a tree of clean words

  /** The words of a path of a cleanly labelled tree are words `str.split()`
      would give back. */
  lemma PathWords(t: Trie, p: seq<string>)
    requires CleanLabels(t) && IsPath(t, p)
    ensures AllWords(p)
  {
    PathClean(t, p);
    assert forall i :: 0 <= i < |p| ==> IsCleanWord(p[i]);
  }

  /** Started at the root (`get_phrases(tree, "", phrases, 0)`), the walk
      writes, for each recorded path, the path's words joined by single spaces
      with the count of its node, and nothing else; each such phrase has
      between `minlen` and `maxlen` words. */
  lemma {:induction false} RootWrites(t: Trie, minlen: nat, maxlen: nat, k: string, v: nat)
    requires 1 <= minlen && CleanLabels(t) && HeightAtMost(t, maxlen)
    ensures Writes(t, "", 0, minlen, k, v) <==>
      exists p :: Recorded(t, p, 0, minlen) && k == Join(p) && v == CountAt(t, p)
    ensures Writes(t, "", 0, minlen, k, v) ==> minlen <= |SplitWhitespace(k)| <= maxlen
  {
    WritesIffRecorded(t, "", 0, minlen, k, v);
    forall p | Recorded(t, p, 0, minlen)
      ensures Strip("" + Spaced(p)) == Join(p)
      ensures minlen <= |p| <= maxlen && SplitWhitespace(Join(p)) == p
    {
      assert "" + Spaced(p) == Spaced(p);
      PathWords(t, p);
      StripSpaced(p);
      PathWithinHeight(t, p, maxlen);
      SplitJoin(p);
    }
  }

  /** In a cleanly labelled tree no two recorded paths share a phrase, so
      from the root every key is written with a single value whatever order
      the children are visited in. */
  lemma RootWritesUnique(t: Trie, minlen: nat, maxlen: nat, k: string, v1: nat, v2: nat)
    requires 1 <= minlen && CleanLabels(t) && HeightAtMost(t, maxlen)
    requires Writes(t, "", 0, minlen, k, v1) && Writes(t, "", 0, minlen, k, v2)
    ensures v1 == v2
  {
    RootWrites(t, minlen, maxlen, k, v1);
    RootWrites(t, minlen, maxlen, k, v2);
    var p1 :| Recorded(t, p1, 0, minlen) && k == Join(p1) && v1 == CountAt(t, p1);
    var p2 :| Recorded(t, p2, 0, minlen) && k == Join(p2) && v2 == CountAt(t, p2);
    PathWords(t, p1);
    PathWords(t, p2);
    JoinInjective(p1, p2);
  }
}
