# phraser in Dafny

A model of the phrase counter in `phraser.py`. It finds the most frequently
repeated phrases of a text: runs of between `minlen` and `maxlen` words that
never cross a sentence boundary. It has four stages.

1. **Tokenizer** (`Text`, `Tokenizer`). `;`, `!` and `?` become `.`, and the
   text is cut at every `.`. Each piece loses the characters of Python's
   `string.punctuation` and is split on ASCII whitespace. Pieces without a
   word are dropped.
2. **Trie builder** (`Windows`, `TrieSpec`, `Nodes`, `Builder`). For every
   start index of a sentence that leaves room for `minlen` words, the window
   `words[s : min(n, s + maxlen)]` is inserted into a prefix tree, and every
   node on its path gains one count. Insertion appears twice:
   - `Nodes.AddToNode` is the in-place recursive `add_to_node` over the
     mutable `Node` class.
   - `TrieSpec.Insert` is the tree value that insertion leaves behind. The
     class keeps a ghost copy of that value.
3. **Phrase extraction** (`PhraseSpec`, `Extraction`). A depth-first walk
   records a path at depth `minlen` or more when its node is a leaf, or when
   some child of the node has a strictly smaller count. The key is the path's
   words joined by single spaces.
4. **Ranking** (`Ranking`). Phrases are sorted by count, highest first. The
   first `top_x` are numbered from 1 and returned as `(rank, count, phrase)`
   entries instead of being printed.

`Phraser` joins the stages as `main` does. It also restates what is
collected directly in terms of the windows of the text, without the tree.
`Phraser.Reported` is the reference definition: a phrase is reported if it
has at least `minlen` words, some window starts with it, and either no window
extends it or some one-word extension starts fewer windows than the phrase.
`Scenarios` proves what the model gives on four small texts.

The globals `minlen`, `maxlen` and `top_x` (phraser.py:17-19) are
parameters. Every entry point requires `1 <= minlen <= maxlen`.

Two consequences of the code that are easy to miss:

- **A prefix as frequent as its only continuation is not reported.** For
  "p q r. p q r." with `minlen = 2` and `maxlen = 3`, "p q" starts two
  windows, but its only child "r" also has count 2. So neither
  phraser.py:128 nor phraser.py:138 fires, and "p q" is never recorded.
  `Scenarios.EqualCountPrefix` proves that only "p q r" and "q r" are
  reported, each with count 2.
- **Counts shrink along edges only below the root.** The root keeps count 0
  (phraser.py:59), while every child starts at 1 (phraser.py:100). So a
  child's count is at most its parent's only below the root, which is how
  `TrieSpec.RootShape` states it.

## Model

| member | source | states |
|---|---|---|
| Text.CharClasses | phraser.py:67 | the range tests used for punctuation and whitespace pick out exactly Python's `string.punctuation` and the ASCII characters `str.isspace` accepts |
| Text.SplitOn | phraser.py:64 | `split('.')` yields one more piece than the text has periods, and no piece contains a period |
| Text.OccurrencesMultiset | phraser.py:64 | the period count used by `SplitOn`'s contract is the number of times `.` occurs in the text |
| Text.JoinSplitOn | phraser.py:64 | joining the pieces back with `.` gives the original text, so splitting loses nothing |
| Text.SplitOnAppend | phraser.py:64 | a period cuts the text in two, and each side splits on its own |
| Text.SplitOnWithout | phraser.py:64 | a text without a period is a single piece |
| Text.Strip | phraser.py:69 | what `strip()` leaves neither starts nor ends with whitespace |
| Text.StripSlice | phraser.py:69 | what `strip()` leaves is a slice of the text, and everything it cuts off on either side is whitespace; with `Strip`'s contract this fixes the result |
| Text.LeadingSpaces | phraser.py:69 | `strip()` removes a leading run of whitespace that is followed by a non-space or by the end |
| Text.TrailingStart | phraser.py:69 | `strip()` removes a trailing run of whitespace that is preceded by a non-space or by the start |
| Text.StripPadded | phraser.py:69 | `strip()` turns a text that starts and ends with a non-space, with at most one space in front, into that text |
| Text.SplitWhitespace | phraser.py:69 | every word `split()` yields is non-empty and free of whitespace; the three `SplitWhitespace…` lemmas below fix which words they are |
| Text.SplitWhitespaceEmpty | phraser.py:69 | the empty text has no word |
| Text.SplitWhitespaceWord | phraser.py:69 | a single word splits into itself |
| Text.SplitWhitespaceSpace | phraser.py:69 | every whitespace character separates: the words of `a + c + b` are those of `a` followed by those of `b`; with the two rows above this fixes `split()` on every text |
| Text.SplitFromClean | phraser.py:66-69 | a punctuation-free text splits into words that hold no punctuation |
| Text.SplitJoin | phraser.py:69 | splitting words joined by single spaces gives the words back |
| Text.JoinInjective | phraser.py:140-142 | two word paths with the same phrase text are the same path |
| Text.SpacedIsJoinPlusSpace | phraser.py:142 | the text the walk accumulates is the words joined by single spaces, plus one trailing space |
| Text.StripSpaced | phraser.py:130 | stripping the accumulated text gives exactly the words joined by single spaces |
| Text.DeletePunctuation | phraser.py:67-68 | a character occurs in the result exactly when it occurs in the input and is not punctuation, and the result is never longer; order and repetitions are fixed by the two `DeletePunctuation…` lemmas below |
| Text.DeletePunctuationAppend | phraser.py:67-68 | the deletion works character by character: it distributes over concatenation |
| Text.DeletePunctuationChar | phraser.py:67-68 | a punctuation character is removed and any other is kept unchanged; with the row above this fixes the deletion on every text, order and repetitions included |
| Text.DeletePunctuationNone | phraser.py:67-68 | text without punctuation is left unchanged |
| Text.JoinClean | phraser.py:67-69 | words without punctuation, joined by spaces, give a text without punctuation |
| Tokenizer.NormalizeEnds | phraser.py:61-62 | same length as the input; a position holds `.` exactly where the input has one of `. ; ! ?`, and every other character is kept |
| Tokenizer.SentenceWords | phraser.py:66-69 | every word of a piece is non-empty and holds neither whitespace nor punctuation |
| Tokenizer.DropEmpty | phraser.py:71-73 | every kept word list is non-empty and is one of the input lists; `DropEmptyOne` and `DropEmptyAppend` show that every non-empty list is kept, in order |
| Tokenizer.DropEmptyOne | phraser.py:71-73 | a single list is kept exactly when it is non-empty; with `DropEmptyAppend` this fixes the result: every non-empty list, in order |
| Tokenizer.DropEmptyAppend | phraser.py:64-73 | dropping the empty lists works run by run |
| Tokenizer.NormalizeEndsAppend | phraser.py:61-62 | the substitution works character by character, so it distributes over concatenation |
| Tokenizer.OnePiece | phraser.py:64-73 | a text without a sentence end or other punctuation is one piece, which becomes one sentence unless it has no word |
| Tokenizer.Tokenize | phraser.py:61-73 | every sentence has at least one word, and every word is non-empty and free of whitespace and punctuation |
| Tokenizer.SentenceEndSplits | phraser.py:61-64 | each of `.`, `;`, `!` and `?` splits the sentences of a text into those before it and those after it |
| Tokenizer.EmptySentenceDropped | phraser.py:71-73 | a sentence that is empty after punctuation is stripped contributes nothing |
| Tokenizer.EmptyText | phraser.py:64-73 | the empty text has no sentence |
| Tokenizer.PaddedSentenceWords | phraser.py:66-69 | a sentence's words joined by single spaces, with at most one space in front, hold no punctuation and split back into exactly those words |
| Tokenizer.CleanSentence | phraser.py:61-73 | a sentence written as its words separated by single spaces tokenizes back to exactly those words |
| Tokenizer.TwoSentences | phraser.py:61-73 | two such sentences, each ended by a period, tokenize back to the two word lists |
| Windows.SentenceWindows | phraser.py:76-78 | a sentence of `n` words has `max(0, n - minlen + 1)` windows; window `s` is `words[s..s+len]` with `minlen <= len <= maxlen`, cut short only by the end of the sentence |
| Windows.WindowAt | phraser.py:77-78 | window `s` is exactly `words[s : min(n, s + maxlen)]` |
| Windows.ShortSentenceNoWindows | phraser.py:76 | a sentence with fewer than `minlen` words yields no window |
| Windows.AllWindows | phraser.py:64-78 | the windows of all sentences, sentence by sentence; each has between `minlen` and `maxlen` words |
| Windows.AllWindowsShape | phraser.py:64-78 | every window of a text has between `minlen` and `maxlen` words, taken consecutively from a single sentence |
| Windows.AllWindowsCount | phraser.py:64-78 | a text yields the sum, over its sentences, of `max(0, n - minlen + 1)` windows |
| Windows.AllWindowsAppend | phraser.py:64-78 | the windows of two runs of sentences are those of each run, in order |
| Windows.AllWindowsTwo | phraser.py:64-78 | the windows of two sentences are those of the first followed by those of the second |
| TrieSpec.Insert | phraser.py:83-103 | insertion leaves the count of the node it starts at unchanged |
| TrieSpec.InsertEmpty | phraser.py:89-90 | inserting the empty phrase changes nothing |
| TrieSpec.InsertEffect | phraser.py:89-103 | below the start node: the node at a path gains exactly one count when the path is a prefix of the phrase; a missing one is created with count 1; every other node keeps its count; the paths are the old ones plus the prefixes of the phrase |
| TrieSpec.InsertAll | phraser.py:64-78 | inserting a run of windows, one `add_to_node` per window, never changes the count of the node it starts at |
| TrieSpec.InsertAllAppend | phraser.py:64-78 | inserting two runs of windows one after the other equals inserting their concatenation |
| TrieSpec.CountIsPrefixCount | phraser.py:93-103 | after a run of insertions, each non-root node's count is its old count plus the number of windows that start with its path |
| TrieSpec.CountSemantics | phraser.py:107-109 | in a tree built from a fresh root, a non-root node's count is the number of inserted windows that start with its path, and the node exists exactly when that number is positive |
| TrieSpec.PrefixCountWitness | phraser.py:107-109 | a positive count means some inserted window starts with the path |
| TrieSpec.InsertBumpedMonotone | phraser.py:93-96 | descending into a child whose count was just incremented keeps every child count between 1 and its parent's |
| TrieSpec.InsertRootShape | phraser.py:59 | insertion keeps the root at count 0 and every other node's children at counts between 1 and the node's own |
| TrieSpec.InsertHeight | phraser.py:89-103 | inserting a phrase of at most `h` words keeps every path at most `h` words |
| TrieSpec.InsertClean | phraser.py:99-101 | inserting clean words keeps every edge label a clean word |
| TrieSpec.InsertAllInvariants | phraser.py:64-78 | after every window of a text is inserted, the root keeps count 0, counts are monotone below it, depth is at most `maxlen` and labels are clean |
| TrieSpec.PathWithinHeight | phraser.py:77 | every path of a tree of height at most `maxlen` has at most `maxlen` words |
| TrieSpec.PathClean | phraser.py:99-101 | the words along a path of a cleanly labelled tree are clean |
| Nodes.Node.constructor | phraser.py:112-114 | `Node(count, {})` has the given count and a fresh, empty children map of its own |
| Nodes.AddToNode | phraser.py:83-103 | returns the node it was given; the subtree's value afterwards is `Insert` of the old value; the nodes it adds are fresh; ownership stays exclusive |
| Nodes.DescendExisting | phraser.py:93-97 | an existing child's count goes up by one and the rest of the phrase is inserted below it |
| Nodes.DescendNew | phraser.py:99-103 | a missing child is created with count 1 and the rest of the phrase is inserted below it |
| Builder.InsertSentence | phraser.py:75-78 | the window loop inserts exactly the windows of the sentence, in order of their start |
| Builder.PieceWindows | phraser.py:71-73 | a piece without words contributes no window |
| Builder.AddPiece | phraser.py:66-78 | one pass of the sentence loop inserts the windows of that piece, and nothing for an empty piece |
| Builder.InsertPieces | phraser.py:64-78 | the sentence loop inserts the windows of every non-empty piece, in text order |
| Builder.BuildTree | phraser.py:50-80 | the returned fresh root holds the tree built from a root of count 0 by inserting every window of every sentence of the text |
| PhraseSpec.WritesAtLeaf | phraser.py:127-131 | at a leaf of depth `minlen` or more, the walk writes exactly its stripped phrase with the leaf's count and returns |
| PhraseSpec.WritesByPasses | phraser.py:133-142 | everywhere else, a visit writes exactly what its passes over all children write: its own phrase for a child of smaller count, then everything below that child |
| PhraseSpec.WritesRecorded | phraser.py:123-142 | every write of the walk comes from a recorded path, keyed by the stripped accumulated text, with the count of the path's node |
| PhraseSpec.RecordedWrites | phraser.py:123-142 | every recorded path is written by the walk |
| PhraseSpec.WritesIffRecorded | phraser.py:123-142 | the walk writes a key and value exactly when they come from a recorded path |
| PhraseSpec.RecordedLength | phraser.py:127-140 | a recorded path lies at depth `minlen` or more |
| PhraseSpec.RootWrites | phraser.py:123-142 | from the root, the walk writes each recorded path's words joined by single spaces with that node's count, and nothing else; every written phrase has between `minlen` and `maxlen` words |
| PhraseSpec.RootWritesUnique | phraser.py:130-140 | no two recorded paths share a key, so each key is written with one value whatever order the children are visited in |
| Extraction.GetPhrases | phraser.py:123-142 | the dictionary after the walk holds the old keys plus the keys the walk writes; a written key holds a value the walk writes for it, and every other key keeps its old value |
| Extraction.PassStep | phraser.py:134-142 | one pass of the child loop extends that statement from the children already visited to one more child |
| Ranking.SortByCount | phraser.py:151 | the sorted keys list every phrase exactly once, with counts non-increasing; ties may come out in any order |
| Ranking.MaxExists | phraser.py:151 | a non-empty set of phrases has one whose count none of the others exceeds |
| Ranking.LeftOutNotHigher | phraser.py:151-153 | taking entries from the front of the sorted phrases leaves out no phrase with a higher count than a kept one |
| Ranking.RankTop | phraser.py:145-155 | `min(top_x, |phrases|)` entries ranked 1, 2, ...; each is a distinct phrase with its count; counts are non-increasing; no phrase left out has a higher count than a ranked one |
| Phraser.WindowsClean | phraser.py:64-78 | every window of a text has at most `maxlen` clean words |
| Phraser.BuiltTreeShape | phraser.py:59-78 | the tree built from a text has a root of count 0, monotone counts below the root, depth at most `maxlen` and clean labels |
| Phraser.RecordedIffReported | phraser.py:127-142 | a path of the built tree is recorded exactly when it is a reported phrase of the windows: at least `minlen` words, started by some window, and either no window extends it or some one-word extension starts fewer windows |
| Phraser.CollectPhrases | phraser.py:43-45 | the phrases collected from the built tree are exactly the reported phrases joined by single spaces, each mapped to the number of windows that start with it, each with between `minlen` and `maxlen` words and each the text of a run of words inside one sentence |
| Phraser.ReportedInOneSentence | phraser.py:3-6 | a reported phrase never spans sentences: its words are consecutive words of one sentence |
| Phraser.RankedReported | phraser.py:145-155 | read against the collected phrases, each ranked entry is a reported phrase with its window count, and no reported phrase left out has a higher count than an entry |
| Phraser.TopPhrases | phraser.py:43-47 | the phrase map holds exactly the reported phrases, each mapped to its window count, each of `minlen` to `maxlen` words and each the text of a run of words inside one sentence; the ranking is numbered 1..N with `N = min(top_x, |phrases|)`; the entries are distinct reported phrases with their window counts; counts are non-increasing; no reported phrase left out has a higher count |
| Scenarios.ThreeWordWindows | phraser.py:76-78 | a three-word sentence with `minlen = 2` has two windows: the first clipped to `maxlen`, the second running to the end |
| Scenarios.BranchingPrefix | phraser.py:50-142 | for "a b c. a b d." with `minlen = maxlen = 2`, exactly "a b" (count 2), "b c" (1) and "b d" (1) are reported |
| Scenarios.TopOfBranchingPrefix | phraser.py:43-47 | with `top_x = 1`, the whole pipeline ranks that text as the single entry `(1, 2, "a b")` |
| Scenarios.ClippedWindow | phraser.py:50-142 | for "x y" with `minlen = 2`, `maxlen = 5`, the one window is `["x", "y"]`, clipped to the sentence, and "x y" (count 1) is the only reported phrase |
| Scenarios.ShortSentence | phraser.py:76 | for "a." with `minlen = 2`, there is no window and no phrase |
| Scenarios.PQNotReported | phraser.py:138-140 | "p q" starts as many windows as its only continuation "p q r", so it is not reported |
| Scenarios.EqualCountPrefix | phraser.py:50-142 | for "p q r. p q r." with `minlen = 2`, `maxlen = 3`, exactly "p q r" and "q r" are reported, each with count 2; "p q" also starts two windows but is not reported |

## Left out

- `main` (phraser.py:21-47): argument parsing with `getopt`, the usage
  message, `sys.exit` codes and reading the input file. This is I/O; the text
  is a parameter.
- The `print` of `print_top_x` (phraser.py:154): the model returns the ranked
  entries instead. A printed line has the shape `#rank:\t(count) phrase`.
- `Node.__repr__` (phraser.py:116-117): debugging output only.
- `Node.has_children` (phraser.py:119-120): never called. Its result is
  inverted, and `get_phrases` tests `node.children` directly.
- Unicode: `str.split()` and `str.strip()` also treat non-ASCII whitespace
  such as U+00A0 and U+2028 as separators. The model uses only the ASCII
  whitespace set.
- Ranking.SortByCount: `sorted` is stable and Python dictionaries iterate in
  insertion order, so ties come out in one fixed order. The model allows any
  order among equal counts, as the docstring at phraser.py:12 promises. The
  method picks a maximum repeatedly instead of running Python's sort.
- Extraction.GetPhrases: visits the children of a node in any order, not
  Python's insertion order. `PhraseSpec.RootWritesUnique` shows the order does
  not matter.
- Configurations with `minlen < 1` or `maxlen < minlen`: every entry point
  requires `1 <= minlen <= maxlen`. The source sets the constants by hand and
  does not check them.
