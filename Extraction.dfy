/**
 * `get_phrases` (phraser.py:123-142): the depth-first walk over the mutable
 * tree that writes each recorded phrase and its count into the phrase
 * dictionary.
 */
module Extraction {
  import opened Text
  import opened TrieSpec
  import opened PhraseSpec
  import opened Nodes

  /** `get_phrases(node, current, phrases, wordLen)`: the dictionary the walk
      leaves, given the one it starts with. The children are visited in an
      unspecified order; the keys are those of `phrases` and those the walk
      writes, and a written key holds a value the walk writes for it. */
  method GetPhrases(node: Node, current: string, phrases: map<string, nat>, wordLen: nat, minlen: nat)
    returns (result: map<string, nat>)
    requires node.Valid()
    ensures forall k :: k in result <==> k in phrases || Written(node.Tree, current, wordLen, minlen, k)
    ensures forall k :: k in result ==>
      if Written(node.Tree, current, wordLen, minlen, k) then Writes(node.Tree, current, wordLen, minlen, k, result[k])
      else result[k] == phrases[k]
    decreases node.Repr
  {
    ghost var t := node.Tree;
    if node.children == map[] && wordLen >= minlen {
      result := phrases[Strip(current) := node.count];
      forall k ensures Written(t, current, wordLen, minlen, k) <==> k == Strip(current) {
        WritesAtLeaf(t, current, wordLen, minlen, k, node.count);
      }
      forall k, v ensures Writes(t, current, wordLen, minlen, k, v) <==> k == Strip(current) && v == t.count {
        WritesAtLeaf(t, current, wordLen, minlen, k, v);
      }
      return;
    }
    result := phrases;
    var todo := node.children.Keys;
    ghost var done: set<string> := {};
    while todo != {}
      invariant todo !! done && todo + done == node.children.Keys
      invariant forall k :: k in result <==> k in phrases || PassesWritten(t, current, wordLen, minlen, done, k)
      invariant forall k :: k in result ==>
        if PassesWritten(t, current, wordLen, minlen, done, k) then PassesWrite(t, current, wordLen, minlen, done, k, result[k])
        else result[k] == phrases[k]
      decreases todo
    {
      var w :| w in todo;
      var child := node.children[w];
      ghost var before := result;
      if node.count > child.count && wordLen >= minlen {
        result := result[Strip(current) := node.count];
      }
      ghost var middle := result;
      result := GetPhrases(child, current + w + " ", result, wordLen + 1, minlen);
      PassStep(t, current, wordLen, minlen, done, w, phrases, before, middle, result);
      todo := todo - {w};
      done := done + {w};
    }
    forall k, v ensures Writes(t, current, wordLen, minlen, k, v) <==> PassesWrite(t, current, wordLen, minlen, done, k, v) {
      WritesByPasses(t, current, wordLen, minlen, k, v);
    }
  }

  /** One pass of the loop at phraser.py:135-142 extends the loop invariant
      from the children in `done` to those and `w`. */
  lemma PassStep(t: Trie, current: string, depth: nat, minlen: nat, done: set<string>, w: string,
                 phrases: map<string, nat>, before: map<string, nat>, middle: map<string, nat>, after: map<string, nat>)
    requires w in t.children && w !in done
    requires forall k :: k in before <==> k in phrases || PassesWritten(t, current, depth, minlen, done, k)
    requires forall k :: k in before ==>
      if PassesWritten(t, current, depth, minlen, done, k) then PassesWrite(t, current, depth, minlen, done, k, before[k])
      else before[k] == phrases[k]
    requires middle ==
      if t.count > t.children[w].count && depth >= minlen then before[Strip(current) := t.count] else before
    requires forall k :: k in after <==> k in middle || Written(t.children[w], current + w + " ", depth + 1, minlen, k)
    requires forall k :: k in after ==>
      if Written(t.children[w], current + w + " ", depth + 1, minlen, k) then Writes(t.children[w], current + w + " ", depth + 1, minlen, k, after[k])
      else after[k] == middle[k]
    ensures forall k :: k in after <==> k in phrases || PassesWritten(t, current, depth, minlen, done + {w}, k)
    ensures forall k :: k in after ==>
      if PassesWritten(t, current, depth, minlen, done + {w}, k) then PassesWrite(t, current, depth, minlen, done + {w}, k, after[k])
      else after[k] == phrases[k]
  {
    var all := done + {w};
    var c := t.children[w];
    var fired := t.count > c.count && depth >= minlen;
    forall k, v
      ensures PassesWrite(t, current, depth, minlen, all, k, v) <==>
        PassesWrite(t, current, depth, minlen, done, k, v) || ChildWrites(t, current, depth, minlen, w, k, v)
    {
      if PassesWrite(t, current, depth, minlen, all, k, v) {
        var u :| u in all && u in t.children && ChildWrites(t, current, depth, minlen, u, k, v);
        if u != w {
          assert PassesWrite(t, current, depth, minlen, done, k, v);
        }
      }
      if ChildWrites(t, current, depth, minlen, w, k, v) {
        assert w in all;
      }
    }
    forall k ensures k in after <==> k in phrases || PassesWritten(t, current, depth, minlen, all, k) {
      if Written(c, current + w + " ", depth + 1, minlen, k) {
        var v :| Writes(c, current + w + " ", depth + 1, minlen, k, v);
        assert ChildWrites(t, current, depth, minlen, w, k, v);
      }
      if fired && k == Strip(current) {
        assert ChildWrites(t, current, depth, minlen, w, k, t.count);
      }
    }
    forall k | k in after
      ensures if PassesWritten(t, current, depth, minlen, all, k) then PassesWrite(t, current, depth, minlen, all, k, after[k])
        else after[k] == phrases[k]
    {
      if Written(c, current + w + " ", depth + 1, minlen, k) {
        assert ChildWrites(t, current, depth, minlen, w, k, after[k]);
      } else if fired && k == Strip(current) {
        assert after[k] == t.count;
        assert ChildWrites(t, current, depth, minlen, w, k, after[k]);
      } else {
        assert after[k] == before[k];
        if PassesWritten(t, current, depth, minlen, all, k) {
          var v :| PassesWrite(t, current, depth, minlen, all, k, v);
          assert !ChildWrites(t, current, depth, minlen, w, k, v);
          assert PassesWritten(t, current, depth, minlen, done, k);
        }
      }
    }
  }
}
