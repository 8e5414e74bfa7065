/**
 * The prefix tree of `build_tree` as a value: what a `Node` (phraser.py:106-114)
 * and everything below it hold. `Insert` is the state `add_to_node`
 * (phraser.py:83-103) leaves behind; the lemmas state what that promises
 * about counts and what shape every tree `build_tree` makes keeps.
 */
module TrieSpec {
  import opened Text

  /** A node: how many inserted windows reached it, and its children by word. */
  datatype Trie = Trie(count: nat, children: map<string, Trie>)

  datatype Option<T> = None | Some(value: T)

  /** A freshly created node `Node(count, {})`. */
  function Leaf(count: nat): Trie {
    Trie(count, map[])
  }

  /** The node with its count incremented (`oldchild.count += 1`). */
  function Bump(t: Trie): Trie {
    Trie(t.count + 1, t.children)
  }

  /** `add_to_node(t, phrase)`: the node below which `phrase` was inserted. */
  function Insert(t: Trie, phrase: seq<string>): (r: Trie)
    ensures r.count == t.count
    decreases |phrase|
  {
    if |phrase| == 0 then t
    else if phrase[0] in t.children then
      Trie(t.count, t.children[phrase[0] := Insert(Bump(t.children[phrase[0]]), phrase[1..])])
    else
      Trie(t.count, t.children[phrase[0] := Insert(Leaf(1), phrase[1..])])
  }

  /** The node reached from `t` along the words of `path`, if there is one. */
  function Sub(t: Trie, path: seq<string>): Option<Trie>
    decreases |path|
  {
    if path == [] then Some(t)
    else if path[0] in t.children then Sub(t.children[path[0]], path[1..])
    else None
  }

  predicate IsPath(t: Trie, path: seq<string>) {
    Sub(t, path).Some?
  }

  /** The count of the node at `path`, or 0 where there is no such node. */
  function CountAt(t: Trie, path: seq<string>): nat {
    match Sub(t, path)
    case Some(n) => n.count
    case None => 0
  }

  /** Incrementing a node's count changes nothing below it. */
  lemma BumpBelow(t: Trie, q: seq<string>)
    requires q != []
    ensures Sub(Bump(t), q) == Sub(t, q)
  {
  }

  /** A fresh node has nothing below it. */
  lemma LeafBelow(c: nat, q: seq<string>)
    requires q != []
    ensures Sub(Leaf(c), q) == None
  {
  }

  /** What `add_to_node(t, p)` does to every node other than `t` itself: the
      node at a path `q` gains exactly one count when `q` is a prefix of `p`
      (a missing one is created with count 1) and is unchanged otherwise; the
      paths of the result are those of `t` and the prefixes of `p`. */
  lemma {:induction false} InsertEffect(t: Trie, p: seq<string>, q: seq<string>)
    requires q != []
    ensures CountAt(Insert(t, p), q) == CountAt(t, q) + (if q <= p then 1 else 0)
    ensures IsPath(Insert(t, p), q) <==> IsPath(t, q) || q <= p
    decreases |p|
  {
    if |p| > 0 {
      var w, rest := p[0], p[1..];
      var r := Insert(t, p);
      if q[0] == w {
        var child := if w in t.children then Bump(t.children[w]) else Leaf(1);
        assert r.children[w] == Insert(child, rest);
        assert Sub(r, q) == Sub(Insert(child, rest), q[1..]);
        if q[1..] == [] {
          assert q == [w] && q <= p;
          assert CountAt(r, q) == child.count;
          if w in t.children {
            assert Sub(t, q) == Sub(t.children[w], []);
          }
        } else {
          InsertEffect(child, rest, q[1..]);
          assert (q <= p) == (q[1..] <= rest);
          if w in t.children {
            BumpBelow(t.children[w], q[1..]);
          } else {
            LeafBelow(1, q[1..]);
          }
        }
      } else {
        assert !(q <= p);
        assert Sub(r, q) == Sub(t, q);
      }
    }
  }

  /** Inserting the empty phrase changes nothing (the base case at phraser.py:89-90). */
  lemma InsertEmpty(t: Trie)
    ensures Insert(t, []) == t
  {
  }

  // ---------------------------------------------------------------------------
  // Many insertions

  /** The tree after inserting every window of `windows`, in order; the
      count of the node it starts at never changes. */
  function InsertAll(t: Trie, windows: seq<seq<string>>): (r: Trie)
    ensures r.count == t.count
  {
    if windows == [] then t
    else Insert(InsertAll(t, windows[..|windows| - 1]), windows[|windows| - 1])
  }

  /** The number of windows that have `q` as a prefix. */
  function PrefixCount(windows: seq<seq<string>>, q: seq<string>): nat
  {
    if windows == [] then 0
    else PrefixCount(windows[..|windows| - 1], q) + (if q <= windows[|windows| - 1] then 1 else 0)
  }

  /** One more window adds one to the count of each of its prefixes. */
  lemma PrefixCountSnoc(windows: seq<seq<string>>, x: seq<string>, q: seq<string>)
    ensures PrefixCount(windows + [x], q) == PrefixCount(windows, q) + (if q <= x then 1 else 0)
  {
    assert (windows + [x])[..|windows|] == windows;
  }

  /** No window shorter than `q` starts with `q`. */
  lemma {:induction false} PrefixCountShorter(windows: seq<seq<string>>, q: seq<string>)
    requires forall i :: 0 <= i < |windows| ==> |windows[i]| < |q|
    ensures PrefixCount(windows, q) == 0
  {
    if windows != [] {
      PrefixCountShorter(windows[..|windows| - 1], q);
    }
  }

  /** Inserting a further run of windows inserts them one after the other. */
  lemma {:induction false} InsertAllAppend(t: Trie, xs: seq<seq<string>>, ys: seq<seq<string>>)
    ensures InsertAll(t, xs + ys) == InsertAll(InsertAll(t, xs), ys)
    decreases |ys|
  {
    if ys == [] {
      assert xs + ys == xs;
    } else {
      var all := xs + ys;
      assert all[..|all| - 1] == xs + ys[..|ys| - 1];
      assert all[|all| - 1] == ys[|ys| - 1];
      InsertAllAppend(t, xs, ys[..|ys| - 1]);
    }
  }

  /** The count semantics of the tree (phraser.py:108-109): below the root, the
      node at `q` counts the inserted windows that start with the words of `q`,
      and such a node exists exactly when one window does. */
  lemma {:induction false} CountIsPrefixCount(t: Trie, windows: seq<seq<string>>, q: seq<string>)
    requires q != []
    ensures CountAt(InsertAll(t, windows), q) == CountAt(t, q) + PrefixCount(windows, q)
    ensures IsPath(InsertAll(t, windows), q) <==> IsPath(t, q) || PrefixCount(windows, q) > 0
  {
    if windows != [] {
      var init := windows[..|windows| - 1];
      CountIsPrefixCount(t, init, q);
      InsertEffect(InsertAll(t, init), windows[|windows| - 1], q);
    }
  }

  /** The same, for the tree `build_tree` starts from. */
  lemma CountSemantics(windows: seq<seq<string>>, q: seq<string>)
    requires q != []
    ensures CountAt(InsertAll(Leaf(0), windows), q) == PrefixCount(windows, q)
    ensures IsPath(InsertAll(Leaf(0), windows), q) <==> PrefixCount(windows, q) > 0
  {
    CountIsPrefixCount(Leaf(0), windows, q);
    LeafBelow(0, q);
  }

  /** A window is counted by `PrefixCount` only if one window starts with `q`. */
  lemma {:induction false} PrefixCountWitness(windows: seq<seq<string>>, q: seq<string>)
    requires PrefixCount(windows, q) > 0
    ensures exists i :: 0 <= i < |windows| && q <= windows[i]
  {
    var init := windows[..|windows| - 1];
    if !(q <= windows[|windows| - 1]) {
      PrefixCountWitness(init, q);
      var i :| 0 <= i < |init| && q <= init[i];
      assert windows[i] == init[i];
    }
  }

  // ---------------------------------------------------------------------------
  // Shape invariants

  /** Below a non-root node: every child has a count between 1 and the node's. */
  ghost predicate Monotone(t: Trie) {
    forall w :: w in t.children ==> 1 <= t.children[w].count <= t.count && Monotone(t.children[w])
  }

  /** The root keeps count 0 and is exempt from the rule above, since each of
      its children has a count of at least 1. */
  ghost predicate RootShape(t: Trie) {
    t.count == 0 && forall w :: w in t.children ==> 1 <= t.children[w].count && Monotone(t.children[w])
  }

  /** No path below `t` is longer than `h` words. */
  ghost predicate HeightAtMost(t: Trie, h: nat) {
    forall w :: w in t.children ==> h > 0 && HeightAtMost(t.children[w], h - 1)
  }

  /** Every edge below `t` is labelled with a clean word. */
  ghost predicate CleanLabels(t: Trie) {
    forall w :: w in t.children ==> IsCleanWord(w) && CleanLabels(t.children[w])
  }

  /** Descending into a node after incrementing its count keeps the counts monotone. */
  lemma {:induction false} InsertBumpedMonotone(t: Trie, p: seq<string>)
    requires Monotone(t)
    ensures Monotone(Insert(Bump(t), p))
    decreases |p|
  {
    if |p| > 0 {
      var w, rest := p[0], p[1..];
      if w in t.children {
        InsertBumpedMonotone(t.children[w], rest);
      } else {
        assert Leaf(1) == Bump(Leaf(0));
        InsertBumpedMonotone(Leaf(0), rest);
      }
    }
  }

  /** Insertion keeps the root's count at 0, every other count at least 1 and
      every child's count at most its parent's. */
  lemma InsertRootShape(t: Trie, p: seq<string>)
    requires RootShape(t)
    ensures RootShape(Insert(t, p))
  {
    if |p| > 0 {
      var w, rest := p[0], p[1..];
      if w in t.children {
        InsertBumpedMonotone(t.children[w], rest);
      } else {
        assert Leaf(1) == Bump(Leaf(0));
        InsertBumpedMonotone(Leaf(0), rest);
      }
    }
  }

  /** Inserting a phrase of at most `h` words keeps every path at most `h` words. */
  lemma {:induction false} InsertHeight(t: Trie, p: seq<string>, h: nat)
    requires HeightAtMost(t, h) && |p| <= h
    ensures HeightAtMost(Insert(t, p), h)
    decreases |p|
  {
    if |p| > 0 {
      var w, rest := p[0], p[1..];
      var child := if w in t.children then Bump(t.children[w]) else Leaf(1);
      assert HeightAtMost(child, h - 1);
      InsertHeight(child, rest, h - 1);
    }
  }

  /** Inserting a phrase of clean words keeps every label clean. */
  lemma {:induction false} InsertClean(t: Trie, p: seq<string>)
    requires CleanLabels(t) && AllCleanWords(p)
    ensures CleanLabels(Insert(t, p))
    decreases |p|
  {
    if |p| > 0 {
      var w, rest := p[0], p[1..];
      var child := if w in t.children then Bump(t.children[w]) else Leaf(1);
      assert CleanLabels(child);
      assert AllCleanWords(rest) by {
        assert forall i :: 0 <= i < |rest| ==> rest[i] == p[i + 1];
      }
      InsertClean(child, rest);
    }
  }

  /** All three invariants, after inserting every window of a run. */
  lemma {:induction false} InsertAllInvariants(t: Trie, windows: seq<seq<string>>, maxlen: nat)
    requires RootShape(t) && HeightAtMost(t, maxlen) && CleanLabels(t)
    requires forall i :: 0 <= i < |windows| ==> |windows[i]| <= maxlen && AllCleanWords(windows[i])
    ensures var r := InsertAll(t, windows); RootShape(r) && HeightAtMost(r, maxlen) && CleanLabels(r)
  {
    if windows != [] {
      var init := windows[..|windows| - 1];
      InsertAllInvariants(t, init, maxlen);
      var last := windows[|windows| - 1];
      InsertRootShape(InsertAll(t, init), last);
      InsertHeight(InsertAll(t, init), last, maxlen);
      InsertClean(InsertAll(t, init), last);
    }
  }

  /** In a tree of height at most `h`, every path has at most `h` words. */
  lemma {:induction false} PathWithinHeight(t: Trie, q: seq<string>, h: nat)
    requires HeightAtMost(t, h) && IsPath(t, q)
    ensures |q| <= h
    decreases |q|
  {
    if q != [] {
      PathWithinHeight(t.children[q[0]], q[1..], h - 1);
    }
  }

  /** The words along a path of a cleanly labelled tree are clean. */
  lemma {:induction false} PathClean(t: Trie, q: seq<string>)
    requires CleanLabels(t) && IsPath(t, q)
    ensures AllCleanWords(q)
    decreases |q|
  {
    if q != [] {
      PathClean(t.children[q[0]], q[1..]);
      assert forall i :: 0 < i < |q| ==> q[i] == q[1..][i - 1];
    }
  }
}
