/** Prefix trees as the set of paths they hold, one node to each. */
module Tries {
  import opened Sequences

  type Word = string

  class Node {
    var children: map<char, Node>
    var terminal: bool
    var words: int

    constructor ()
      ensures children == map[] && !terminal && words == 0
    {
      children, terminal, words := map[], false, 0;
    }
  }

  /** The fields of a node. */
  datatype Cell = Cell(children: map<char, Node>, terminal: bool, words: int)

  // ---------- Words under a prefix ----------

  ghost function Under(words: set<Word>, p: Word): set<Word> {
    set w | w in words && p <= w
  }

  lemma OneWordMore(words: set<Word>, word: Word, p: Word)
    requires word !in words
    ensures |Under(words + {word}, p)| == |Under(words, p)| + if p <= word then 1 else 0
  {
    if p <= word {
      assert Under(words + {word}, p) == Under(words, p) + {word};
    } else {
      assert Under(words + {word}, p) == Under(words, p);
    }
  }

  // ---------- The shape ----------

  /** The children of the node at p are the nodes one character further. */
  ghost predicate KidsOk(at: map<Word, Node>, cells: map<Word, Cell>, p: Word) {
    p in at && p in cells ==>
      && (forall c {:trigger c in cells[p].children} {:trigger p + [c]} :: c in cells[p].children <==> p + [c] in at)
      && (forall c {:trigger c in cells[p].children} :: c in cells[p].children ==>
        cells[p].children[c] == at[p + [c]])
  }

  ghost predicate ParentOk(at: map<Word, Node>, p: Word) {
    p in at && p != [] ==> p[..|p| - 1] in at
  }

  ghost predicate Apart(at: map<Word, Node>, p: Word, q: Word) {
    p in at && q in at && p != q ==> at[p] != at[q]
  }

  ghost predicate Shape(at: map<Word, Node>, cells: map<Word, Cell>) {
    && at.Keys == cells.Keys && [] in at
    && (forall p {:trigger KidsOk(at, cells, p)} :: KidsOk(at, cells, p))
    && (forall p {:trigger ParentOk(at, p)} :: ParentOk(at, p))
    && (forall p, q {:trigger Apart(at, p, q)} :: Apart(at, p, q))
  }

  /** Terminal nodes are the words, and each count is what it should be, but for a bonus on some prefixes
      of one word. */
  ghost predicate CellOk(cells: map<Word, Cell>, words: set<Word>, p: Word, word: Word, from: int, upTo: int,
      bonus: int) {
    p in cells ==>
      && (cells[p].terminal <==> p in words)
      && cells[p].words == |Under(words, p)| + if p <= word && from <= |p| < upTo then bonus else 0
  }

  ghost predicate Content(cells: map<Word, Cell>, words: set<Word>, word: Word, from: int, upTo: int, bonus: int) {
    && (forall w :: w in words ==> w in cells)
    && (forall p {:trigger CellOk(cells, words, p, word, from, upTo, bonus)} ::
      CellOk(cells, words, p, word, from, upTo, bonus))
  }

  /** Every node but the root leads to a word. */
  ghost predicate Leads(paths: set<Word>, words: set<Word>, p: Word) {
    p in paths && p != [] ==> Under(words, p) != {}
  }

  ghost predicate NoDeadEnds(paths: set<Word>, words: set<Word>) {
    forall p {:trigger Leads(paths, words, p)} :: Leads(paths, words, p)
  }

  lemma {:induction false} PrefixesAreNodes(at: map<Word, Node>, w: Word, k: nat)
    requires w in at && k <= |w| && forall p {:trigger ParentOk(at, p)} :: ParentOk(at, p)
    ensures w[..k] in at
    decreases |w|
  {
    if k == |w| {
      assert w[..k] == w;
    } else {
      assert ParentOk(at, w);
      var v := w[..|w| - 1];
      PrefixesAreNodes(at, v, k);
      assert v[..k] == w[..k];
    }
  }

  /** A path that is not there leads to no word. */
  lemma AbsentLeadsNowhere(at: map<Word, Node>, cells: map<Word, Cell>, words: set<Word>, p: Word)
    requires Shape(at, cells) && (forall w :: w in words ==> w in cells) && p !in at
    ensures Under(words, p) == {}
  {
    forall w | w in words ensures !(p <= w) {
      if p <= w {
        assert w[..|p|] == p;
        PrefixesAreNodes(at, w, |p|);
      }
    }
  }

  /** The tree is determined by its words: same paths, same flags, same counts. */
  lemma WordsDetermineTree(at: map<Word, Node>, cells: map<Word, Cell>, at': map<Word, Node>, cells': map<Word,
      Cell>, words: set<Word>, p: Word)
    requires Shape(at, cells) && Content(cells, words, [], 0, 0, 0) && NoDeadEnds(at.Keys, words)
    requires Shape(at', cells') && Content(cells', words, [], 0, 0, 0) && NoDeadEnds(at'.Keys, words)
    ensures p in cells <==> p in cells'
    ensures p in cells ==> cells[p].terminal == cells'[p].terminal && cells[p].words == cells'[p].words
    ensures p in cells ==> cells[p].children.Keys == cells'[p].children.Keys
  {
    SamePaths(at, cells, at', cells', words, p);
    SamePaths(at', cells', at, cells, words, p);
    if p in cells {
      assert CellOk(cells, words, p, [], 0, 0, 0) && CellOk(cells', words, p, [], 0, 0, 0);
      assert KidsOk(at, cells, p) && KidsOk(at', cells', p);
      forall c ensures c in cells[p].children <==> c in cells'[p].children {
        SamePaths(at, cells, at', cells', words, p + [c]);
        SamePaths(at', cells', at, cells, words, p + [c]);
      }
    }
  }

  /** The same paths, with the same flags, counts and links. */
  ghost predicate SameTree(cells: map<Word, Cell>, cells': map<Word, Cell>) {
    cells.Keys == cells'.Keys &&
    forall p :: p in cells ==>
      && cells[p].terminal == cells'[p].terminal && cells[p].words == cells'[p].words
      && cells[p].children.Keys == cells'[p].children.Keys
  }

  lemma WordsDetermineAll(at: map<Word, Node>, cells: map<Word, Cell>, at': map<Word, Node>, cells': map<Word,
      Cell>, words: set<Word>)
    requires Shape(at, cells) && Content(cells, words, [], 0, 0, 0) && NoDeadEnds(at.Keys, words)
    requires Shape(at', cells') && Content(cells', words, [], 0, 0, 0) && NoDeadEnds(at'.Keys, words)
    ensures SameTree(cells, cells')
  {
    forall p ensures p in cells <==> p in cells' {
      WordsDetermineTree(at, cells, at', cells', words, p);
    }
    forall p | p in cells
      ensures cells[p].terminal == cells'[p].terminal && cells[p].words == cells'[p].words
      ensures cells[p].children.Keys == cells'[p].children.Keys
    {
      WordsDetermineTree(at, cells, at', cells', words, p);
    }
  }

  lemma SamePaths(at: map<Word, Node>, cells: map<Word, Cell>, at': map<Word, Node>, cells': map<Word, Cell>,
      words: set<Word>, p: Word)
    requires Shape(at, cells) && NoDeadEnds(at.Keys, words)
    requires Shape(at', cells') && (forall w :: w in words ==> w in cells')
    ensures p in cells ==> p in cells'
  {
    assert Leads(at.Keys, words, p);
    if p in cells && p !in cells' {
      AbsentLeadsNowhere(at', cells', words, p);
    }
  }

  // ---------- What the writes do to the shape ----------

  /** A new node without a word, linked behind p. */
  ghost function WithChild(cells: map<Word, Cell>, p: Word, c: char, child: Node): map<Word, Cell>
    requires p in cells
  {
    cells[p := cells[p].(children := cells[p].children[c := child])][p + [c] := Cell(map[], false, 0)]
  }

  lemma ChildAdded(at: map<Word, Node>, cells: map<Word, Cell>, p: Word, c: char, child: Node)
    requires Shape(at, cells) && p in at && p + [c] !in at && forall q :: q in at ==> at[q] != child
    ensures Shape(at[p + [c] := child], WithChild(cells, p, c, child))
  {
    var q := p + [c];
    var at', cells' := at[q := child], WithChild(cells, p, c, child);
    forall r ensures KidsOk(at', cells', r) {
      assert KidsOk(at, cells, r);
      forall d ensures r + [d] == q <==> r == p && d == c {
        assert q[..|q| - 1] == p && q[|q| - 1] == c && (r + [d])[..|r|] == r;
      }
      if r == q {
        forall d ensures q + [d] !in at' {
          assert ParentOk(at, q + [d]) && (q + [d])[..|q|] == q;
        }
      }
    }
    forall r ensures ParentOk(at', r) {
      assert ParentOk(at, r);
      assert q[..|q| - 1] == p;
    }
    forall r, t ensures Apart(at', r, t) {
      assert Apart(at, r, t);
    }
  }

  lemma LeafRemoved(at: map<Word, Node>, cells: map<Word, Cell>, p: Word, c: char)
    requires Shape(at, cells) && p in at && p + [c] in at && cells[p + [c]].children == map[]
    ensures Shape(at - {p + [c]}, cells[p := cells[p].(children := cells[p].children - {c})] - {p + [c]})
  {
    var q := p + [c];
    var at', cells' := at - {q}, cells[p := cells[p].(children := cells[p].children - {c})] - {q};
    forall r ensures KidsOk(at', cells', r) {
      assert KidsOk(at, cells, r);
      forall d ensures r + [d] == q <==> r == p && d == c {
        assert q[..|q| - 1] == p && q[|q| - 1] == c && (r + [d])[..|r|] == r;
      }
    }
    assert KidsOk(at, cells, q);
    forall r ensures ParentOk(at', r) {
      assert ParentOk(at, r);
      if r != [] && r[..|r| - 1] == q {
        assert r == q + [r[|r| - 1]];
      }
    }
    forall r, t ensures Apart(at', r, t) {
      assert Apart(at, r, t);
    }
  }

  lemma ShapeIgnoresCounts(at: map<Word, Node>, cells: map<Word, Cell>, p: Word, terminal: bool, words: int)
    requires Shape(at, cells) && p in at
    ensures Shape(at, cells[p := cells[p].(terminal := terminal, words := words)])
  {
    var cells' := cells[p := cells[p].(terminal := terminal, words := words)];
    forall q ensures KidsOk(at, cells', q) {
      assert KidsOk(at, cells, q);
    }
  }

  // ---------- What the writes do to the content ----------

  /** One more node on the path has its count raised. */
  lemma CountRaised(cells: map<Word, Cell>, words: set<Word>, word: Word, i: nat, bonus: int)
    requires i <= |word| && word[..i] in cells && Content(cells, words, word, 0, i, bonus)
    ensures var q := word[..i];
      Content(cells[q := cells[q].(words := cells[q].words + bonus)], words, word, 0, i + 1, bonus)
  {
    var q := word[..i];
    var cells' := cells[q := cells[q].(words := cells[q].words + bonus)];
    var next := i + 1;
    forall p ensures CellOk(cells', words, p, word, 0, next, bonus) {
      assert CellOk(cells, words, p, word, 0, i, bonus);
      assert p <= word && |p| == i ==> p == q;
    }
  }

  lemma EmptyNodeAdded(at: map<Word, Node>, cells: map<Word, Cell>, words: set<Word>, p: Word, c: char,
      child: Node, word: Word, upTo: nat)
    requires Shape(at, cells) && Content(cells, words, word, 0, upTo, 1) && p in at && p + [c] !in at &&
        upTo <= |p| + 1
    ensures Content(WithChild(cells, p, c, child), words, word, 0, upTo, 1)
  {
    var q := p + [c];
    var cells' := WithChild(cells, p, c, child);
    AbsentLeadsNowhere(at, cells, words, q);
    forall r ensures CellOk(cells', words, r, word, 0, upTo, 1) {
      assert CellOk(cells, words, r, word, 0, upTo, 1);
    }
  }

  /** With the flag set the counts are right for one word more. */
  lemma WordAdded(cells: map<Word, Cell>, words: set<Word>, word: Word)
    requires word in cells && word !in words && Content(cells, words, word, 0, |word| + 1, 1)
    ensures Content(cells[word := cells[word].(terminal := true)], words + {word}, [], 0, 0, 0)
  {
    var cells' := cells[word := cells[word].(terminal := true)];
    forall p ensures CellOk(cells', words + {word}, p, [], 0, 0, 0) {
      assert CellOk(cells, words, p, word, 0, |word| + 1, 1);
      OneWordMore(words, word, p);
    }
  }

  /** With the flag cleared the counts are one too high along the whole path. */
  lemma WordTaken(cells: map<Word, Cell>, words: set<Word>, word: Word)
    requires word in cells && word in words && Content(cells, words, [], 0, 0, 0)
    ensures Content(cells[word := cells[word].(terminal := false)], words - {word}, word, 0, |word| + 1, 1)
  {
    var cells', fewer, end := cells[word := cells[word].(terminal := false)], words - {word}, |word| + 1;
    assert fewer + {word} == words;
    forall p ensures CellOk(cells', fewer, p, word, 0, end, 1) {
      assert CellOk(cells, words, p, [], 0, 0, 0);
      OneWordMore(fewer, word, p);
    }
  }

  lemma CountLowered(cells: map<Word, Cell>, words: set<Word>, word: Word, k: nat)
    requires k <= |word| && word[..k] in cells && Content(cells, words, word, k, |word| + 1, 1)
    ensures var q := word[..k];
      Content(cells[q := cells[q].(words := cells[q].words - 1)], words, word, k + 1, |word| + 1, 1)
  {
    var q, end, next := word[..k], |word| + 1, k + 1;
    var cells' := cells[q := cells[q].(words := cells[q].words - 1)];
    forall p ensures CellOk(cells', words, p, word, next, end, 1) {
      assert CellOk(cells, words, p, word, k, end, 1);
      assert p <= word && |p| == k ==> p == q;
    }
  }

  lemma AllLowered(cells: map<Word, Cell>, words: set<Word>, word: Word)
    requires Content(cells, words, word, |word| + 1, |word| + 1, 1)
    ensures Content(cells, words, [], 0, 0, 0)
  {
    var end := |word| + 1;
    forall p ensures CellOk(cells, words, p, [], 0, 0, 0) {
      assert CellOk(cells, words, p, word, end, end, 1);
    }
  }

  /** Only nodes on the way to word, none of them past the first i characters, may lead to no word. */
  ghost predicate Suspect(paths: set<Word>, words: set<Word>, word: Word, i: nat, p: Word) {
    p in paths && p != [] ==> if p <= word then |p| <= i else Under(words, p) != {}
  }

  ghost predicate Pruning(paths: set<Word>, words: set<Word>, word: Word, i: nat) {
    forall p {:trigger Suspect(paths, words, word, i, p)} :: Suspect(paths, words, word, i, p)
  }

  lemma PruningStarts(paths: set<Word>, words: set<Word>, word: Word)
    requires NoDeadEnds(paths, words)
    ensures Pruning(paths, words - {word}, word, |word|)
  {
    var fewer, n := words - {word}, |word|;
    forall p ensures Suspect(paths, fewer, word, n, p) {
      assert Leads(paths, words, p);
      if p in paths && p != [] && !(p <= word) {
        assert forall w :: w in Under(words, p) ==> w in Under(fewer, p);
      }
    }
  }

  /** A node that is needed keeps everything above it needed. */
  lemma PruningStops(at: map<Word, Node>, cells: map<Word, Cell>, words: set<Word>, word: Word, i: nat)
    requires Shape(at, cells) && Content(cells, words, [], 0, 0, 0) && Pruning(at.Keys, words, word, i) && i <= |word|
    requires word[..i] in at && (i == 0 || cells[word[..i]].terminal || cells[word[..i]].children != map[])
    ensures NoDeadEnds(at.Keys, words)
  {
    var q := word[..i];
    if i > 0 {
      var w := SomeWord(at, cells, words, word, i);
      forall p ensures Leads(at.Keys, words, p) {
        assert Suspect(at.Keys, words, word, i, p);
        if p in at && p <= word && |p| <= i {
          assert p <= q;
          assert w in Under(words, p);
        }
      }
    } else {
      forall p ensures Leads(at.Keys, words, p) {
        assert Suspect(at.Keys, words, word, i, p);
      }
    }
  }

  lemma SomeWord(at: map<Word, Node>, cells: map<Word, Cell>, words: set<Word>, word: Word, i: nat) returns (w: Word)
    requires Shape(at, cells) && Content(cells, words, [], 0, 0, 0) && Pruning(at.Keys, words, word, i) && i <= |word|
    requires word[..i] in at && (cells[word[..i]].terminal || cells[word[..i]].children != map[])
    ensures w in words && word[..i] <= w
  {
    var q := word[..i];
    if cells[q].terminal {
      assert CellOk(cells, words, q, [], 0, 0, 0);
      w := q;
    } else {
      var c :| c in cells[q].children;
      var r := q + [c];
      assert KidsOk(at, cells, q) && Suspect(at.Keys, words, word, i, r);
      w :| w in Under(words, r);
      assert q <= r <= w;
    }
  }

  lemma PrunedOne(at: map<Word, Node>, cells: map<Word, Cell>, words: set<Word>, word: Word, i: nat)
    requires Shape(at, cells) && Content(cells, words, [], 0, 0, 0) && Pruning(at.Keys, words, word, i) &&
        0 < i <= |word|
    requires word[..i] in at && !cells[word[..i]].terminal && cells[word[..i]].children == map[]
    ensures word[..i - 1] in at
    ensures var p, q := word[..i - 1], word[..i];
      var fewer := cells[p := cells[p].(children := cells[p].children - {word[i - 1]})] - {q};
      Shape(at - {q}, fewer) && Content(fewer, words, [], 0, 0, 0) && Pruning(at.Keys - {q}, words, word, i - 1)
  {
    var p, q, before := word[..i - 1], word[..i], i - 1;
    assert q == p + [word[i - 1]] && q[..|q| - 1] == p;
    assert ParentOk(at, q);
    LeafRemoved(at, cells, p, word[i - 1]);
    var fewer := cells[p := cells[p].(children := cells[p].children - {word[i - 1]})] - {q};
    assert CellOk(cells, words, q, [], 0, 0, 0);
    forall r ensures CellOk(fewer, words, r, [], 0, 0, 0) {
      assert CellOk(cells, words, r, [], 0, 0, 0);
    }
    var paths := at.Keys - {q};
    forall r ensures Suspect(paths, words, word, before, r) {
      assert Suspect(at.Keys, words, word, i, r);
      assert r <= word && |r| == i ==> r == q;
    }
  }

  lemma StillLeads(paths: set<Word>, words: set<Word>, word: Word)
    requires NoDeadEnds(paths, words)
    ensures NoDeadEnds(paths, words + {word})
  {
    forall p ensures Leads(paths, words + {word}, p) {
      assert Leads(paths, words, p);
      assert Under(words, p) <= Under(words + {word}, p);
    }
  }

  lemma PathLeads(paths: set<Word>, words: set<Word>, word: Word, q: Word)
    requires NoDeadEnds(paths, words) && word in words && q <= word
    ensures NoDeadEnds(paths + {q}, words)
  {
    var more := paths + {q};
    forall p ensures Leads(more, words, p) {
      assert Leads(paths, words, p);
      assert p == q ==> word in Under(words, p);
    }
  }

  // ---------- Patterns ----------

  predicate Fits(pattern: Word, w: Word) {
    |pattern| == |w| && forall i :: 0 <= i < |w| ==> pattern[i] == '.' || pattern[i] == w[i]
  }

  /** Some word goes on from p as the pattern says. */
  ghost predicate FitsBelow(words: set<Word>, p: Word, pattern: Word) {
    exists w {:trigger w in words} :: w in words && p <= w && Fits(pattern, w[|p|..])
  }

  /** It goes on with the first character of the pattern, or any child if that is a dot. */
  lemma FitsStep(at: map<Word, Node>, cells: map<Word, Cell>, words: set<Word>, p: Word, pattern: Word)
    requires Shape(at, cells) && Content(cells, words, [], 0, 0, 0) && p in at && pattern != []
    ensures FitsBelow(words, p, pattern) <==>
      exists c {:trigger c in cells[p].children} ::
        c in cells[p].children && (pattern[0] == '.' || pattern[0] == c) && FitsBelow(words, p + [c], pattern[1..])
  {
    assert KidsOk(at, cells, p);
    if FitsBelow(words, p, pattern) {
      var w :| w in words && p <= w && Fits(pattern, w[|p|..]);
      var c := w[|p|];
      assert w[..|p| + 1] == p + [c] && w[|p|..][0] == c && w[|p|..][1..] == w[|p + [c]|..];
      PrefixesAreNodes(at, w, |p| + 1);
      assert c in cells[p].children && FitsBelow(words, p + [c], pattern[1..]);
    }
    forall c | c in cells[p].children && (pattern[0] == '.' || pattern[0] == c) &&
        FitsBelow(words, p + [c], pattern[1..])
      ensures FitsBelow(words, p, pattern)
    {
      var w :| w in words && p + [c] <= w && Fits(pattern[1..], w[|p + [c]|..]);
      assert p <= w && w[|p|..][0] == c && w[|p|..][1..] == w[|p + [c]|..];
      assert Fits(pattern, w[|p|..]);
    }
  }

  lemma EndOfPattern(words: set<Word>, p: Word)
    ensures FitsBelow(words, p, []) <==> p in words
  {
    assert p[|p|..] == [];
    if FitsBelow(words, p, []) {
      var w :| w in words && p <= w && Fits([], w[|p|..]);
      assert w == p;
    }
  }

  lemma FromTheRoot(words: set<Word>, pattern: Word)
    ensures FitsBelow(words, [], pattern) <==> exists w :: w in words && Fits(pattern, w)
  {
    forall w: Word ensures w[0..] == w {
    }
    if w :| w in words && Fits(pattern, w) {
      assert [] <= w && Fits(pattern, w[0..]);
    }
  }

  // ---------- Longest prefix ----------

  /** best is the longest word among the first i characters of s and fewer. */
  ghost predicate Longest(words: set<Word>, s: Word, i: nat, best: Word, found: bool) {
    && (found ==> best in words && best <= s && |best| <= i)
    && (!found ==> best == [])
    && forall w {:trigger w in words} :: w in words && w <= s && |w| <= i ==> found && |w| <= |best|
  }

  lemma OneLonger(words: set<Word>, s: Word, i: nat, best: Word, found: bool)
    requires 0 < i <= |s| && Longest(words, s, i - 1, best, found)
    ensures if s[..i] in words then Longest(words, s, i, s[..i], true) else Longest(words, s, i, best, found)
  {
    forall w | w in words && w <= s && |w| == i ensures w == s[..i] {
    }
  }

  lemma NothingLonger(at: map<Word, Node>, cells: map<Word, Cell>, words: set<Word>, s: Word, i: nat,
      best: Word, found: bool)
    requires Shape(at, cells) && Content(cells, words, [], 0, 0, 0) && i < |s| && s[..i + 1] !in at
    requires Longest(words, s, i, best, found)
    ensures Longest(words, s, |s|, best, found)
  {
    forall w | w in words && w <= s ensures |w| <= i {
      if |w| > i {
        assert w[..i + 1] == s[..i + 1];
        PrefixesAreNodes(at, w, i + 1);
      }
    }
  }

  // ---------- Lists of words ----------

  /** A longer word goes on through a child. */
  lemma LongerGoOn(at: map<Word, Node>, cells: map<Word, Cell>, words: set<Word>, p: Word)
    requires Shape(at, cells) && Content(cells, words, [], 0, 0, 0) && p in at
    ensures forall w {:trigger w in words} :: w in words && p <= w && |w| > |p| ==> w[|p|] in cells[p].children
    ensures forall w {:trigger w in words} :: w in words && p <= w && |w| <= |p| ==> w == p
  {
    assert KidsOk(at, cells, p);
    forall w | w in words && p <= w && |w| > |p| ensures w[|p|] in cells[p].children {
      PrefixesAreNodes(at, w, |p| + 1);
      assert w[..|p| + 1] == p + [w[|p|]];
    }
  }

  /** out holds, each once, the words from p on but for those that go on with one of the keys. */
  ghost predicate Gathered(words: set<Word>, p: Word, keys: set<char>, out: seq<Word>) {
    Distinct(out) && forall w {:trigger w in out} {:trigger w in words} ::
      w in out <==> w in words && p <= w && (|w| > |p| ==> w[|p|] !in keys)
  }

  lemma GatherOne(words: set<Word>, p: Word, keys: set<char>, out: seq<Word>, c: char, below: seq<Word>)
    requires Gathered(words, p, keys, out) && c in keys
    requires Distinct(below) && forall w :: w in below <==> w in Under(words, p + [c])
    ensures Gathered(words, p, keys - {c}, out + below)
  {
    forall w ensures w in Under(words, p + [c]) <==> w in words && p <= w && |w| > |p| && w[|p|] == c {
      if p + [c] <= w {
        assert w[|p|] == (p + [c])[|p|];
      }
    }
    DistinctJoin(out, below);
  }

  lemma DistinctJoin(s: seq<Word>, t: seq<Word>)
    requires Distinct(s) && Distinct(t) && forall w :: w in s ==> w !in t
    ensures Distinct(s + t)
  {
    var u := s + t;
    forall i, j | 0 <= i < j < |u| ensures u[i] != u[j] {
      if i < |s| <= j {
        assert u[i] in s && u[j] in t;
      }
    }
  }

  // ---------- The trie ----------

  class Trie {
    var root: Node?
    ghost var at: map<Word, Node>
    ghost var stored: set<Word>

    /** The nodes' fields. */
    ghost function Cells(): (cells: map<Word, Cell>)
      reads this, at.Values
      ensures cells.Keys == at.Keys
    {
      map p | p in at :: Cell(at[p].children, at[p].terminal, at[p].words)
    }

    ghost predicate Built()
      reads this, at.Values
    {
      if root == null then at == map[] else Shape(at, Cells()) && at[[]] == root
    }

    ghost predicate Valid()
      reads this, at.Values
    {
      && Built()
      && Content(Cells(), stored, [], 0, 0, 0)
      && NoDeadEnds(at.Keys, stored)
    }

    constructor ()
      ensures Valid() && stored == {} && root == null
    {
      root, at, stored := null, map[], {};
    }

    /** How many words are stored. */
    method Len() returns (n: int)
      requires Valid()
      ensures n == |stored|
    {
      if root == null {
        assert forall w :: w in stored ==> w in Cells();
        assert stored == {};
        return 0;
      }
      assert CellOk(Cells(), stored, [], [], 0, 0, 0);
      assert Under(stored, []) == stored;
      return root.words;
    }

    /** Answers null where the path breaks off. */
    method Find(s: Word) returns (n: Node?)
      requires Built()
      ensures n == if s in at then at[s] else null
    {
      if root == null {
        return null;
      }
      n := root;
      for i := 0 to |s|
        invariant s[..i] in at && n == at[s[..i]]
      {
        assert KidsOk(at, Cells(), s[..i]);
        assert s[..i + 1] == s[..i] + [s[i]];
        if s[i] !in n.children {
          if s in at {
            PrefixesAreNodes(at, s, i + 1);
          }
          return null;
        }
        n := n.children[s[i]];
      }
      assert s[..|s|] == s;
    }

    method Contains(word: Word) returns (r: bool)
      requires Valid()
      ensures r <==> word in stored
    {
      var n := Find(word);
      assert CellOk(Cells(), stored, word, [], 0, 0, 0);
      return n != null && n.terminal;
    }

    /** The size of a subtree, read off its root. */
    method Count(prefix: Word) returns (r: int)
      requires Valid()
      ensures r == |Under(stored, prefix)|
    {
      var n := Find(prefix);
      if n == null {
        if root == null {
          assert Under(stored, prefix) == {};
        } else {
          AbsentLeadsNowhere(at, Cells(), stored, prefix);
        }
        return 0;
      }
      assert CellOk(Cells(), stored, prefix, [], 0, 0, 0);
      return n.words;
    }

    method HasPrefix(prefix: Word) returns (r: bool)
      requires Valid()
      ensures r <==> exists w :: w in stored && prefix <= w
    {
      var n := Count(prefix);
      if n > 0 {
        assert Under(stored, prefix) != {};
        ghost var w :| w in Under(stored, prefix);
      } else {
        assert forall w :: w in stored && prefix <= w ==> w in Under(stored, prefix);
      }
      return n > 0;
    }

    /** A write to one node changes one cell. */
    lemma OnlyOne(p: Word)
      requires root != null && Shape(at, Cells()) && p in at
      ensures forall q {:trigger at[q]} :: q in at && q != p ==> at[q] != at[p]
    {
      forall q | q in at && q != p ensures at[q] != at[p] {
        assert Apart(at, q, p);
      }
    }

    /** Adds one to the count of the node for the first i characters. */
    method Raise(n: Node, ghost word: Word, ghost i: nat)
      requires i <= |word| && OnTheWay(word, i) && IsAt(n, word[..i])
      modifies n
      ensures OnTheWay(word, i + 1)
    {
      ghost var cells, q := Cells(), word[..i];
      OnlyOne(q);
      n.words := n.words + 1;
      assert Cells() == cells[q := cells[q].(words := cells[q].words + 1)];
      CountRaised(cells, stored, word, i, 1);
      ShapeIgnoresCounts(at, cells, q, cells[q].terminal, cells[q].words + 1);
    }

    /** A new node behind n, on the way to word. */
    method AddChild(n: Node, c: char, ghost word: Word, ghost i: nat) returns (child: Node)
      requires root != null && Built() && i < |word| && c == word[i] && word[..i] in at && n == at[word[..i]]
      requires Content(Cells(), stored, word, 0, i + 1, 1) && c !in n.children
      modifies this`at, n
      ensures Built() && Content(Cells(), stored, word, 0, i + 1, 1)
      ensures fresh(child) && at == old(at)[word[..i + 1] := child]
    {
      ghost var cells, p := Cells(), word[..i];
      assert KidsOk(at, cells, p);
      assert word[..i + 1] == p + [c];
      child := new Node();
      ghost var was := at;
      OnlyOne(p);
      ChildAdded(was, cells, p, c, child);
      EmptyNodeAdded(was, cells, stored, p, c, child, word, i + 1);
      n.children := n.children[c := child];
      at := at[p + [c] := child];
      ghost var next := WithChild(cells, p, c, child);
      forall q | q in at ensures Cells()[q] == next[q] {
        assert q in was && q != p ==> at[q] != n;
      }
      assert Cells() == next;
    }

    /** The child for the next character, made if it is not there. */
    method Descend(n: Node, c: char, ghost word: Word, ghost i: nat) returns (child: Node)
      requires i < |word| && c == word[i] && OnTheWay(word, i + 1) && IsAt(n, word[..i])
      modifies this`at, n
      ensures OnTheWay(word, i + 1) && IsAt(child, word[..i + 1])
      ensures at == old(at) || (fresh(child) && at == old(at)[word[..i + 1] := child])
    {
      assert KidsOk(at, Cells(), word[..i]);
      assert word[..i + 1] == word[..i] + [c];
      if c in n.children {
        return n.children[c];
      }
      PathLeads(at.Keys, stored + {word}, word, word[..i + 1]);
      child := AddChild(n, c, word, i);
      assert at.Keys == old(at.Keys) + {word[..i + 1]};
    }

    /** Adds the word, unless it is there. */
    method Insert(word: Word) returns (added: bool)
      requires Valid()
      modifies this, at.Values
      ensures Valid() && fresh(at.Values - old(at.Values))
      ensures added <==> word !in old(stored)
      ensures root != null
      ensures stored == old(stored) + {word}
    {
      StartRoot();
      var there := Contains(word);
      if there {
        assert stored + {word} == stored;
        return false;
      }
      InsertNew(word);
      return true;
    }

    method InsertNew(word: Word)
      requires Valid() && root != null && word !in stored
      modifies this, at.Values
      ensures Valid() && root != null && fresh(at.Values - old(at.Values)) && stored == old(stored) + {word}
    {
      StillLeads(at.Keys, stored, word);
      NoBonus(Cells(), stored, word);
      var last := Walk(word);
      Mark(last, word);
    }

    /** On the way to word, with the counts of the nodes before i raised. */
    ghost predicate OnTheWay(word: Word, i: nat)
      reads this, at.Values
    {
      root != null && Built() && Content(Cells(), stored, word, 0, i, 1) && NoDeadEnds(at.Keys, stored + {word})
    }

    ghost predicate IsAt(n: Node, p: Word)
      reads this
    {
      p in at && at[p] == n
    }

    /** Walks the path, making what is missing and raising every count. */
    method Walk(word: Word) returns (current: Node)
      requires OnTheWay(word, 0)
      modifies this`at, at.Values
      ensures OnTheWay(word, |word| + 1) && IsAt(current, word) && fresh(at.Values - old(at.Values))
    {
      current := root;
      assert word[..0] == [];
      Raise(current, word, 0);
      for i := 0 to |word|
        invariant OnTheWay(word, i + 1) && IsAt(current, word[..i]) && fresh(at.Values - old(at.Values))
      {
        current := Step(current, word, i);
      }
      assert word[..|word|] == word;
    }

    method Step(n: Node, word: Word, i: nat) returns (child: Node)
      requires i < |word| && OnTheWay(word, i + 1) && IsAt(n, word[..i])
      modifies this`at, at.Values
      ensures OnTheWay(word, i + 2) && IsAt(child, word[..i + 1]) && fresh(at.Values - old(at.Values))
    {
      child := Descend(n, word[i], word, i);
      Raise(child, word, i + 1);
    }

    /** Sets the flag that InsertNew has counted for. */
    method Mark(n: Node, ghost word: Word)
      requires OnTheWay(word, |word| + 1) && IsAt(n, word) && word !in stored
      modifies this`stored, n
      ensures Valid() && stored == old(stored) + {word}
    {
      ghost var cells := Cells();
      ghost var next := cells[word := cells[word].(terminal := true)];
      OnlyOne(word);
      WordAdded(cells, stored, word);
      ShapeIgnoresCounts(at, cells, word, true, cells[word].words);
      n.terminal := true;
      stored := stored + {word};
      assert Cells() == next;
    }

    lemma NoBonus(cells: map<Word, Cell>, words: set<Word>, word: Word)
      requires Content(cells, words, [], 0, 0, 0)
      ensures Content(cells, words, word, 0, 0, 1)
    {
      forall p ensures CellOk(cells, words, p, word, 0, 0, 1) {
        assert CellOk(cells, words, p, [], 0, 0, 0);
      }
    }

    /** Makes the root, unless there is one. */
    method StartRoot()
      requires Valid()
      modifies this
      ensures Valid() && root != null && stored == old(stored) && fresh(at.Values - old(at.Values))
    {
      if root != null {
        return;
      }
      root := new Node();
      at := map[[] := root];
      assert stored == {};
      assert Under(stored, []) == {};
      assert Cells() == map[[] := Cell(map[], false, 0)];
    }

    /** Removes the word, and with it every node that then leads to none. */
    method Delete(word: Word) returns (removed: bool)
      requires Valid()
      modifies this, at.Values
      ensures Valid() && at.Values <= old(at.Values)
      ensures removed <==> word in old(stored)
      ensures root == old(root)
      ensures stored == old(stored) - {word}
    {
      var there := Contains(word);
      if !there {
        return false;
      }
      var path := PathTo(word);
      assert word[..|word|] == word;
      Unmark(path[|word|], word);
      Lower(path, word);
      Prune(path, word);
      return true;
    }

    /** The nodes from the root to the end of the word. */
    ghost predicate IsPath(path: seq<Node>, word: Word)
      reads this
    {
      |path| == |word| + 1 && forall k {:trigger path[k]} :: 0 <= k <= |word| ==> IsAt(path[k], word[..k])
    }

    method PathTo(word: Word) returns (path: seq<Node>)
      requires Valid() && word in stored
      ensures IsPath(path, word)
    {
      assert word in Cells();
      var current := root;
      path := [current];
      for i := 0 to |word|
        invariant |path| == i + 1 && current == path[i]
        invariant forall k {:trigger path[k]} :: 0 <= k <= i ==> IsAt(path[k], word[..k])
      {
        PrefixesAreNodes(at, word, i + 1);
        assert word[..i + 1] == word[..i] + [word[i]];
        assert KidsOk(at, Cells(), word[..i]);
        current := current.children[word[i]];
        path := path + [current];
      }
    }

    method Unmark(n: Node, word: Word)
      requires Valid() && word in stored && IsAt(n, word)
      modifies this`stored, n
      ensures root != null && Built() && stored == old(stored) - {word}
      ensures Content(Cells(), stored, word, 0, |word| + 1, 1) && Pruning(at.Keys, stored, word, |word|)
    {
      ghost var cells := Cells();
      ghost var next := cells[word := cells[word].(terminal := false)];
      OnlyOne(word);
      WordTaken(cells, stored, word);
      ShapeIgnoresCounts(at, cells, word, false, cells[word].words);
      PruningStarts(at.Keys, stored, word);
      n.terminal := false;
      stored := stored - {word};
      assert Cells() == next;
    }

    /** Takes one from every count on the path. */
    method Lower(path: seq<Node>, word: Word)
      requires root != null && Built() && IsPath(path, word) && Content(Cells(), stored, word, 0, |word| + 1, 1)
      modifies path
      ensures Built() && Content(Cells(), stored, [], 0, 0, 0)
    {
      for k := 0 to |path|
        invariant Built() && Content(Cells(), stored, word, k, |word| + 1, 1)
      {
        LowerOne(path[k], word, k);
      }
      AllLowered(Cells(), stored, word);
    }

    method LowerOne(n: Node, word: Word, k: nat)
      requires root != null && Built() && k <= |word| && IsAt(n, word[..k]) &&
          Content(Cells(), stored, word, k, |word| + 1, 1)
      modifies n
      ensures Built() && Content(Cells(), stored, word, k + 1, |word| + 1, 1)
    {
      ghost var cells, q := Cells(), word[..k];
      OnlyOne(q);
      CountLowered(cells, stored, word, k);
      ShapeIgnoresCounts(at, cells, q, cells[q].terminal, cells[q].words - 1);
      n.words := n.words - 1;
      assert Cells() == cells[q := cells[q].(words := cells[q].words - 1)];
    }

    /** Right flags and counts, and dead ends at most among the first i nodes on the way to word. */
    ghost predicate Tidy(word: Word, i: nat)
      reads this, at.Values
    {
      root != null && Built() && Content(Cells(), stored, [], 0, 0, 0) && Pruning(at.Keys, stored, word, i)
    }

    ghost predicate PathHolds(path: seq<Node>, word: Word, i: nat)
      reads this
    {
      i <= |word| < |path| && forall k {:trigger path[k]} :: 0 <= k <= i ==> IsAt(path[k], word[..k])
    }

    ghost predicate Climbing(path: seq<Node>, word: Word, i: nat, nodes: set<Node>)
      reads this, at.Values
    {
      Tidy(word, i) && PathHolds(path, word, i) && at.Values <= nodes
    }

    /** Goes up the path and cuts off dead ends; nothing above a needed node can be one. */
    method Prune(path: seq<Node>, word: Word)
      requires Tidy(word, |word|) && IsPath(path, word)
      modifies this`at, path
      ensures Valid() && at.Values <= old(at.Values)
    {
      var i: nat := |word|;
      ghost var nodes := at.Values;
      var dead := true;
      while dead && i > 0
        invariant dead ==> Climbing(path, word, i, nodes)
        invariant !dead ==> Valid() && at.Values <= nodes
        decreases i, dead
      {
        dead := UnlinkIfDead(path, word, i, nodes);
        i := i - 1;
      }
      if dead {
        Settled(path, word, 0);
      }
    }

    method UnlinkIfDead(path: seq<Node>, word: Word, i: nat, ghost nodes: set<Node>) returns (dead: bool)
      requires 0 < i && Climbing(path, word, i, nodes)
      modifies this`at, path
      ensures dead ==> Climbing(path, word, i - 1, nodes)
      ensures !dead ==> Valid() && at.Values <= nodes
    {
      dead := !path[i].terminal && path[i].children == map[];
      if dead {
        Unlink(path, word, i, nodes);
      } else {
        Settled(path, word, i);
      }
    }

    lemma Settled(path: seq<Node>, word: Word, i: nat)
      requires Tidy(word, i) && PathHolds(path, word, i)
      requires i == 0 || path[i].terminal || path[i].children != map[]
      ensures Valid()
    {
      assert IsAt(path[i], word[..i]);
      PruningStops(at, Cells(), stored, word, i);
    }

    method Unlink(path: seq<Node>, word: Word, i: nat, ghost nodes: set<Node>)
      requires 0 < i && Climbing(path, word, i, nodes)
      requires !path[i].terminal && path[i].children == map[]
      modifies this`at, path
      ensures Climbing(path, word, i - 1, nodes)
    {
      ghost var cells, p, q := Cells(), word[..i - 1], word[..i];
      assert IsAt(path[i], q) && IsAt(path[i - 1], p);
      ghost var fewer := cells[p := cells[p].(children := cells[p].children - {word[i - 1]})] - {q};
      PrunedOne(at, cells, stored, word, i);
      OnlyOne(p);
      path[i - 1].children := path[i - 1].children - {word[i - 1]};
      at := at - {q};
      assert Cells() == fewer;
      assert at.Keys == old(at.Keys) - {q};
    }

    // ---------- Queries over many words ----------

    /** Whether any word fits the pattern, where '.' stands for any one character. */
    method Match(pattern: Word) returns (r: bool)
      requires Valid()
      ensures r <==> exists w :: w in stored && Fits(pattern, w)
    {
      if root == null {
        assert forall w :: w in stored ==> w in Cells();
        return false;
      }
      r := MatchFrom(root, pattern, []);
      FromTheRoot(stored, pattern);
    }

    method MatchFrom(n: Node, pattern: Word, ghost p: Word) returns (r: bool)
      requires Valid() && root != null && IsAt(n, p)
      ensures r <==> FitsBelow(stored, p, pattern)
      decreases |pattern|
    {
      assert CellOk(Cells(), stored, p, [], 0, 0, 0) && KidsOk(at, Cells(), p);
      if |pattern| == 0 {
        EndOfPattern(stored, p);
        return n.terminal;
      }
      var c, rest := pattern[0], pattern[1..];
      if c != '.' {
        FitsStep(at, Cells(), stored, p, pattern);
        if c !in n.children {
          return false;
        }
        r := MatchFrom(n.children[c], rest, p + [c]);
        return;
      }
      FitsStep(at, Cells(), stored, p, pattern);
      var keys := n.children.Keys;
      while keys != {}
        invariant keys <= n.children.Keys
        invariant forall d {:trigger d in n.children} :: d in n.children && d !in keys ==>
            !FitsBelow(stored, p + [d], rest)
        decreases keys
      {
        var d :| d in keys;
        var below := MatchFrom(n.children[d], rest, p + [d]);
        if below {
          return true;
        }
        keys := keys - {d};
      }
      return false;
    }

    /** The longest stored word that s starts with. */
    method LongestPrefixOf(s: Word) returns (best: Word, found: bool)
      requires Valid()
      ensures found ==> best in stored && best <= s && forall w :: w in stored && w <= s ==> |w| <= |best|
      ensures !found ==> best == [] && forall w :: w in stored ==> !(w <= s)
    {
      best, found := [], false;
      if root == null {
        assert forall w :: w in stored ==> w in Cells();
        return;
      }
      var current: Node := root;
      var i := 0;
      assert s[..0] == [];
      assert CellOk(Cells(), stored, [], [], 0, 0, 0);
      found := current.terminal;
      while i < |s|
        invariant i <= |s| && IsAt(current, s[..i])
        invariant Longest(stored, s, i, best, found)
      {
        assert KidsOk(at, Cells(), s[..i]);
        assert s[..i + 1] == s[..i] + [s[i]];
        if s[i] !in current.children {
          NothingLonger(at, Cells(), stored, s, i, best, found);
          return;
        }
        current := current.children[s[i]];
        i := i + 1;
        assert CellOk(Cells(), stored, s[..i], [], 0, 0, 0);
        OneLonger(stored, s, i, best, found);
        if current.terminal {
          best, found := s[..i], true;
        }
      }
    }

    ghost function Below(p: Word): set<Word>
      reads this
    {
      set q | q in at.Keys && p <= q
    }

    /** The words below n, each once, in the order the children come up. */
    method Collect(n: Node, buf: Word) returns (out: seq<Word>)
      requires Valid() && root != null && IsAt(n, buf)
      ensures Distinct(out) && forall w :: w in out <==> w in Under(stored, buf)
      decreases Below(buf)
    {
      assert CellOk(Cells(), stored, buf, [], 0, 0, 0) && KidsOk(at, Cells(), buf);
      LongerGoOn(at, Cells(), stored, buf);
      out := if n.terminal then [buf] else [];
      var keys := n.children.Keys;
      while keys != {}
        invariant keys <= n.children.Keys && Gathered(stored, buf, keys, out)
        decreases keys
      {
        var c :| c in keys;
        Shrinks(buf, c);
        var below := Collect(n.children[c], buf + [c]);
        GatherOne(stored, buf, keys, out, c, below);
        out := out + below;
        keys := keys - {c};
      }
    }

    lemma Shrinks(p: Word, c: char)
      requires p in at
      ensures Below(p + [c]) < Below(p)
    {
      assert p in Below(p) && p !in Below(p + [c]);
    }

    /** Every stored word that starts with prefix, once. */
    method WordsWithPrefix(prefix: Word) returns (out: seq<Word>)
      requires Valid()
      ensures Distinct(out) && forall w :: w in out <==> w in Under(stored, prefix)
      ensures |out| == |Under(stored, prefix)|
    {
      var start := Find(prefix);
      if start == null {
        if root == null {
          assert forall w :: w in stored ==> w in Cells();
        } else {
          AbsentLeadsNowhere(at, Cells(), stored, prefix);
        }
        assert Under(stored, prefix) == {};
        return [];
      }
      out := Collect(start, prefix);
      DistinctCount(out);
      assert Elements(out) == Under(stored, prefix);
    }

    lemma WordsHaveRoot()
      requires Valid() && stored != {}
      ensures root != null && Shape(at, Cells()) && Content(Cells(), stored, [], 0, 0, 0) && NoDeadEnds(at.Keys, stored)
    {
      var w :| w in stored;
      assert CellOk(Cells(), stored, w, [], 0, 0, 0);
    }

    lemma EmptyWithoutRoot()
      requires Valid() && root == null
      ensures Cells() == map[] && stored == {}
    {
      assert forall w :: w in stored ==> w in Cells();
    }

    lemma EmptyWithRoot()
      requires Valid() && root != null && stored == {}
      ensures LoneRoot(Cells())
    {
      NoWordsLoneRoot(at, Cells());
    }

    /** Two moments with the same words have the same tree. */
    lemma Determined(before: map<Word, Node>, cells: map<Word, Cell>, words: set<Word>)
      requires Shape(before, cells) && Content(cells, words, [], 0, 0, 0) && NoDeadEnds(before.Keys, words)
      requires Valid() && root != null && stored == words
      ensures SameTree(cells, Cells())
    {
      WordsDetermineAll(before, cells, at, Cells(), words);
    }
  }

  /** A lone root that leads nowhere. */
  ghost predicate LoneRoot(cells: map<Word, Cell>) {
    cells.Keys == {[]} && cells[[]] == Cell(map[], false, 0)
  }

  /** Without words there is only a root. */
  lemma NoWordsLoneRoot(at: map<Word, Node>, cells: map<Word, Cell>)
    requires Shape(at, cells) && Content(cells, {}, [], 0, 0, 0) && NoDeadEnds(at.Keys, {})
    ensures LoneRoot(cells)
  {
    forall p ensures p in cells <==> p == [] {
      assert Leads(at.Keys, {}, p);
      assert Under({}, p) == {};
    }
    assert cells.Keys == {[]};
    assert CellOk(cells, {}, [], [], 0, 0, 0) && KidsOk(at, cells, []);
    assert Under({}, []) == {};
    assert forall c :: c !in cells[[]].children;
    assert cells[[]].children == map[];
  }

  /**
   * Inserting a new word and deleting it again leaves the same tree (paths, flags, counts and links) exactly
   * if there was a root to begin with. Otherwise the root made for the word stays behind, alone.
   */
  method InsertThenDelete(t: Trie, word: Word)
    requires t.Valid() && word !in t.stored
    modifies t, t.at.Values
    ensures t.Valid() && t.stored == old(t.stored)
    ensures SameTree(old(t.Cells()), t.Cells()) <==> old(t.root) != null
    ensures old(t.root) == null ==> t.root != null && LoneRoot(t.Cells())
  {
    ghost var root, at, cells, words := t.root, t.at, t.Cells(), t.stored;
    assert root != null ==> Shape(at, cells) && Content(cells, words, [], 0, 0, 0) && NoDeadEnds(at.Keys, words);
    assert root == null ==> cells == map[] && words == {} by {
      if root == null {
        t.EmptyWithoutRoot();
      }
    }
    var added := t.Insert(word);
    var removed := t.Delete(word);
    assert t.stored == words;
    if root != null {
      t.Determined(at, cells, words);
    } else {
      t.EmptyWithRoot();
    }
  }

  /** Deleting a word and inserting it again always leaves the same tree. */
  method DeleteThenInsert(t: Trie, word: Word)
    requires t.Valid() && word in t.stored
    modifies t, t.at.Values
    ensures t.Valid() && t.stored == old(t.stored) && SameTree(old(t.Cells()), t.Cells())
  {
    ghost var at, cells, words := t.at, t.Cells(), t.stored;
    t.WordsHaveRoot();
    assert words - {word} + {word} == words;
    var removed := t.Delete(word);
    var added := t.Insert(word);
    t.Determined(at, cells, words);
  }
}
