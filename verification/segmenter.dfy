/** The backtracking dictionary matcher `look_for_dict` (src/main.rs) and what it
    guarantees: the pruned trees it returns stand for exactly the segmentations of
    the rest of the word into dictionary tokens. Strings are sequences of ASCII
    characters, so the source's byte offsets are character offsets here. */
module Segmenter {
  import opened Trees
  import opened Seqs

  datatype Option<T> = None | Some(value: T)

  /** The search only terminates when no dictionary entry is the empty string: an
      empty entry matches at every offset without consuming anything. */
  predicate NoEmptyEntry(dict: seq<string>) {
    forall i :: 0 <= i < |dict| ==> |dict[i]| > 0
  }

  /** Every index of `s` names an entry of `dict`. */
  predicate InDict(dict: seq<string>, s: Code) {
    forall k :: 0 <= k < |s| ==> s[k] < |dict|
  }

  /** The text obtained by writing out the tokens named by `s`, in order. */
  function Concat(dict: seq<string>, s: Code): string
    requires InDict(dict, s)
  {
    if |s| == 0 then [] else dict[s[0]] + Concat(dict, s[1..])
  }

  /** `s` tiles the suffix of `word` starting at `i0` with dictionary tokens. */
  ghost predicate IsSegmentation(word: string, dict: seq<string>, i0: nat, s: Code) {
    i0 <= |word| && InDict(dict, s) && Concat(dict, s) == word[i0..]
  }

  /** The shape of every tree the search builds: a terminal node sits at the end of
      the word and has no children; a token node's token is a prefix of the word
      at its level, it has at least one child (dead ends are never kept), and each
      child starts where the token ends. */
  ghost predicate Valid(word: string, dict: seq<string>, t: Tree)
    decreases t
  {
    if t.end then t.level == |word| && t.children == []
    else
      && t.value < |dict|
      && t.level <= |word|
      && dict[t.value] <= word[t.level..]
      && |t.children| > 0
      && forall c :: c in t.children ==> c.level == t.level + |dict[t.value]| && Valid(word, dict, c)
  }

  /** Strictly increasing token indices: the roots come out in dictionary order. */
  ghost predicate InDictionaryOrder(ts: seq<Tree>) {
    forall a, b :: 0 <= a < b < |ts| ==> ts[a].value < ts[b].value
  }

  /** Measure of the search: what is left of the word. */
  function Remaining(word: string, i0: nat): nat {
    if i0 <= |word| then |word| - i0 else 0
  }

  /** All ways of segmenting `word[i0..]`, as a list of pruned trees whose roots sit
      at offset `i0`; `None` when there is none. At the end of the word the answer
      is a single terminal node, past the end it is `None`. */
  function LookForDict(word: string, dict: seq<string>, i0: nat): (r: Option<seq<Tree>>)
    requires NoEmptyEntry(dict)
    ensures i0 == |word| ==> r == Some([NewTermination(i0)])
    ensures i0 > |word| ==> r == None
    ensures r.Some? ==> |r.value| > 0
    ensures r.Some? ==> forall t :: t in r.value ==> t.level == i0
    decreases Remaining(word, i0), |dict| + 1
  {
    if i0 == |word| then Some([NewTermination(i0)])
    else if i0 >= |word| then None
    else
      var out := Branches(word, dict, i0, 0);
      if |out| == 0 then None else Some(out)
  }

  /** The nodes the loop of `look_for_dict` keeps for dictionary entries `i`,
      `i + 1`, ...: one node per entry that is a prefix of `word[i0..]` and after
      which the search succeeds, carrying that search's trees as children. */
  function Branches(word: string, dict: seq<string>, i0: nat, i: nat): (r: seq<Tree>)
    requires NoEmptyEntry(dict)
    requires i0 < |word| && i <= |dict|
    ensures forall t :: t in r ==> !t.end && t.level == i0 && i <= t.value
    decreases Remaining(word, i0), |dict| - i
  {
    if i == |dict| then []
    else
      var here := if dict[i] <= word[i0..] then Keep(i0, i, LookForDict(word, dict, i0 + |dict[i]|)) else [];
      here + Branches(word, dict, i0, i + 1)
  }

  /** The loop body for entry `i` once the deeper search has answered: a node for
      the entry carrying the continuations found, or nothing for a dead end. */
  function Keep(i0: nat, i: nat, found: Option<seq<Tree>>): (r: seq<Tree>)
    ensures found.None? ==> r == []
    ensures found.Some? ==> |r| == 1 && !r[0].end && r[0].level == i0 && r[0].value == i
    ensures found.Some? ==> r[0].children == found.value
  {
    match found
    case Some(trees) =>
      assert [] + trees == trees;
      [AppendChildren(NewNode(i0, i), trees)]
    case None => []
  }

  lemma {:induction false} ConcatCons(dict: seq<string>, s: Code)
    requires InDict(dict, s) && |s| > 0
    ensures InDict(dict, s[1..])
    ensures Concat(dict, s) == dict[s[0]] + Concat(dict, s[1..])
  {
    assert forall k :: 0 <= k < |s[1..]| ==> s[1..][k] == s[k + 1];
  }

  /** Splitting a suffix of the word after a token that is a prefix of it. */
  lemma SuffixSplit(word: string, tok: string, i0: nat)
    requires i0 <= |word| && tok <= word[i0..]
    ensures i0 + |tok| <= |word|
    ensures word[i0..] == tok + word[i0 + |tok|..]
  {
    assert word[i0..] == word[i0..][..|tok|] + word[i0..][|tok|..];
  }

  /** Every path of a valid tree is a segmentation of the word from the tree's level. */
  lemma {:induction false} ValidPathIsSegmentation(word: string, dict: seq<string>, t: Tree, s: Code)
    requires Valid(word, dict, t) && IsPath(t, s)
    ensures IsSegmentation(word, dict, t.level, s)
    decreases t
  {
    if !t.end {
      var c :| c in t.children && IsPath(c, s[1..]);
      ValidPathIsSegmentation(word, dict, c, s[1..]);
      SuffixSplit(word, dict[t.value], t.level);
      assert s == [s[0]] + s[1..];
      assert InDict(dict, s) by {
        forall k | 0 <= k < |s|
          ensures s[k] < |dict|
        {
          if k > 0 {
            assert s[k] == s[1..][k - 1];
          }
        }
      }
      ConcatCons(dict, s);
    }
  }

  /** Pruning: a valid tree has at least one complete path, so no node of it is
      a dead end. */
  lemma {:induction false} ValidHasPath(word: string, dict: seq<string>, t: Tree) returns (s: Code)
    requires Valid(word, dict, t)
    ensures IsPath(t, s)
    ensures s in Flatten(t)
    decreases t
  {
    if t.end {
      s := [];
    } else {
      var c := t.children[0];
      var rest := ValidHasPath(word, dict, c);
      s := [t.value] + rest;
      assert s[1..] == rest;
    }
    FlattenPaths(t);
  }

  /** Every tree the search returns has the shape `Valid` describes; in
      particular, no dead end is ever kept. */
  lemma {:induction false} LookForDictValid(word: string, dict: seq<string>, i0: nat)
    requires NoEmptyEntry(dict)
    ensures LookForDict(word, dict, i0).Some? ==>
      forall t :: t in LookForDict(word, dict, i0).value ==> Valid(word, dict, t)
    decreases Remaining(word, i0)
  {
    var r := LookForDict(word, dict, i0);
    if r.Some? && i0 < |word| {
      forall t | t in r.value
        ensures Valid(word, dict, t)
      {
        LookForDictRoot(word, dict, i0, t);
        var next := i0 + |dict[t.value]|;
        LookForDictValid(word, dict, next);
        var found := LookForDict(word, dict, next);
        assert found.Some? && found.value == t.children;
        assert |t.children| > 0;
        assert forall c :: c in t.children ==> c.level == next && Valid(word, dict, c);
      }
    }
  }

  /** Soundness: every sequence obtained by flattening a returned root names
      dictionary tokens whose concatenation is exactly `word[i0..]`. */
  lemma LookForDictSound(word: string, dict: seq<string>, i0: nat)
    requires NoEmptyEntry(dict)
    ensures LookForDict(word, dict, i0).Some? ==>
      forall t, s :: t in LookForDict(word, dict, i0).value && s in Flatten(t) ==>
        IsSegmentation(word, dict, i0, s)
  {
    var r := LookForDict(word, dict, i0);
    if r.Some? {
      LookForDictValid(word, dict, i0);
      forall t, s | t in r.value && s in Flatten(t)
        ensures IsSegmentation(word, dict, i0, s)
      {
        FlattenPaths(t);
        ValidPathIsSegmentation(word, dict, t, s);
      }
    }
  }

  /** What each node kept by the loop is: an entry that is a prefix of the rest of
      the word, carrying as children exactly the search result at the offset after
      it. */
  lemma {:induction false} BranchKept(word: string, dict: seq<string>, i0: nat, i: nat, t: Tree)
    requires NoEmptyEntry(dict)
    requires i0 < |word| && i <= |dict|
    requires t in Branches(word, dict, i0, i)
    ensures t.value < |dict|
    ensures dict[t.value] <= word[i0..]
    ensures LookForDict(word, dict, i0 + |dict[t.value]|) == Some(t.children)
    decreases |dict| - i
  {
    if t in Branches(word, dict, i0, i + 1) {
      BranchKept(word, dict, i0, i + 1, t);
    }
  }

  /** Every entry that is a prefix of the rest of the word and after which the
      search succeeds gets its node. */
  lemma {:induction false} BranchFor(word: string, dict: seq<string>, i0: nat, i: nat, j: nat) returns (t: Tree)
    requires NoEmptyEntry(dict)
    requires i0 < |word| && i <= j < |dict|
    requires dict[j] <= word[i0..] && LookForDict(word, dict, i0 + |dict[j]|).Some?
    ensures t in Branches(word, dict, i0, i) && t.value == j
    decreases |dict| - i
  {
    var r := Branches(word, dict, i0, i);
    var tail := Branches(word, dict, i0, i + 1);
    var here := if dict[i] <= word[i0..] then Keep(i0, i, LookForDict(word, dict, i0 + |dict[i]|)) else [];
    assert r == here + tail;
    if i < j {
      t := BranchFor(word, dict, i0, i + 1, j);
      assert t in tail;
    } else {
      t := here[0];
      assert t in here;
    }
  }

  /** The loop visits the entries in order and keeps at most one node per entry. */
  lemma {:induction false} BranchesOrdered(word: string, dict: seq<string>, i0: nat, i: nat)
    requires NoEmptyEntry(dict)
    requires i0 < |word| && i <= |dict|
    ensures InDictionaryOrder(Branches(word, dict, i0, i))
    decreases |dict| - i
  {
    if i < |dict| {
      var r := Branches(word, dict, i0, i);
      var tail := Branches(word, dict, i0, i + 1);
      var here := if dict[i] <= word[i0..] then Keep(i0, i, LookForDict(word, dict, i0 + |dict[i]|)) else [];
      assert r == here + tail;
      BranchesOrdered(word, dict, i0, i + 1);
      forall a, b | 0 <= a < b < |r|
        ensures r[a].value < r[b].value
      {
        assert r[b] == tail[b - |here|];
        assert tail[b - |here|] in tail;
        if a < |here| {
          assert r[a] == here[0];
        } else {
          assert r[a] == tail[a - |here|];
        }
      }
    }
  }

  /** The roots come out in dictionary order, one per token. */
  lemma LookForDictOrdered(word: string, dict: seq<string>, i0: nat)
    requires NoEmptyEntry(dict)
    requires i0 < |word| && LookForDict(word, dict, i0).Some?
    ensures InDictionaryOrder(LookForDict(word, dict, i0).value)
  {
    BranchesOrdered(word, dict, i0, 0);
  }

  /** Levels follow offsets: every root returned before the end of the word is a
      token node at offset `i0` whose token is a prefix of `word[i0..]`, and its
      children are exactly the search result at the offset after that token, so
      each child's level is the root's level plus the token's length. The deeper
      search is therefore never asked about an offset past the end of the word. */
  lemma LookForDictRoot(word: string, dict: seq<string>, i0: nat, t: Tree)
    requires NoEmptyEntry(dict)
    requires i0 < |word|
    requires LookForDict(word, dict, i0).Some? && t in LookForDict(word, dict, i0).value
    ensures !t.end && t.level == i0 && t.value < |dict|
    ensures dict[t.value] <= word[i0..] && i0 + |dict[t.value]| <= |word|
    ensures LookForDict(word, dict, i0 + |dict[t.value]|) == Some(t.children)
    ensures forall c :: c in t.children ==> c.level == t.level + |dict[t.value]|
  {
    BranchKept(word, dict, i0, 0, t);
  }

  /** Conversely, every entry that is a prefix of `word[i0..]` and after which the
      search succeeds is the token of a returned root. */
  lemma LookForDictRootFor(word: string, dict: seq<string>, i0: nat, j: nat) returns (t: Tree)
    requires NoEmptyEntry(dict)
    requires i0 < |word| && j < |dict|
    requires dict[j] <= word[i0..] && LookForDict(word, dict, i0 + |dict[j]|).Some?
    ensures LookForDict(word, dict, i0).Some?
    ensures t in LookForDict(word, dict, i0).value && t.value == j
  {
    t := BranchFor(word, dict, i0, 0, j);
  }

  /** A segmentation that starts with token `j` is the token followed by a
      segmentation of the text after that token. */
  lemma {:induction false} SegmentationCons(word: string, dict: seq<string>, i0: nat, s: Code)
    requires NoEmptyEntry(dict)
    requires IsSegmentation(word, dict, i0, s) && |s| > 0
    ensures i0 < |word|
    ensures dict[s[0]] <= word[i0..]
    ensures IsSegmentation(word, dict, i0 + |dict[s[0]]|, s[1..])
  {
    ConcatCons(dict, s);
    var tok := dict[s[0]];
    assert word[i0..] == tok + Concat(dict, s[1..]);
    assert tok <= word[i0..];
    SuffixSplit(word, tok, i0);
  }

  /** At the end of the word the only root is the termination node, whose one
      path is the empty segmentation. */
  lemma CompleteEnd(word: string, dict: seq<string>, i0: nat)
    requires NoEmptyEntry(dict) && i0 == |word|
    ensures LookForDict(word, dict, i0).Some?
    ensures NewTermination(i0) in LookForDict(word, dict, i0).value
    ensures IsPath(NewTermination(i0), [])
  {
    assert LookForDict(word, dict, i0).value == [NewTermination(i0)];
  }

  /** One step of completeness: if the rest of a segmentation runs through a tree
      found after its first token, the whole segmentation runs through the root
      kept for that token. */
  lemma CompleteStep(word: string, dict: seq<string>, i0: nat, s: Code, c: Tree) returns (t: Tree)
    requires NoEmptyEntry(dict)
    requires i0 < |word| && |s| > 0 && s[0] < |dict| && dict[s[0]] <= word[i0..]
    requires LookForDict(word, dict, i0 + |dict[s[0]]|).Some?
    requires c in LookForDict(word, dict, i0 + |dict[s[0]]|).value && IsPath(c, s[1..])
    ensures LookForDict(word, dict, i0).Some?
    ensures t in LookForDict(word, dict, i0).value && IsPath(t, s)
  {
    t := LookForDictRootFor(word, dict, i0, s[0]);
    LookForDictRoot(word, dict, i0, t);
    PathThrough(t, c, s);
  }

  /** Completeness: every segmentation of `word[i0..]` labels a path of some
      returned root. In particular the search succeeds whenever one exists. */
  lemma {:induction false} LookForDictComplete(word: string, dict: seq<string>, i0: nat, s: Code) returns (t: Tree)
    requires NoEmptyEntry(dict)
    requires IsSegmentation(word, dict, i0, s)
    ensures LookForDict(word, dict, i0).Some?
    ensures t in LookForDict(word, dict, i0).value && IsPath(t, s)
    decreases |s|
  {
    if |s| == 0 {
      assert word[i0..] == [];
      CompleteEnd(word, dict, i0);
      t := NewTermination(i0);
    } else {
      SegmentationCons(word, dict, i0, s);
      var c := LookForDictComplete(word, dict, i0 + |dict[s[0]]|, s[1..]);
      t := CompleteStep(word, dict, i0, s, c);
    }
  }

  /** The search fails exactly when the rest of the word has no segmentation. */
  lemma LookForDictNone(word: string, dict: seq<string>, i0: nat)
    requires NoEmptyEntry(dict)
    ensures LookForDict(word, dict, i0).None? <==> !exists s :: IsSegmentation(word, dict, i0, s)
  {
    var r := LookForDict(word, dict, i0);
    if r.Some? {
      var t := r.value[0];
      LookForDictValid(word, dict, i0);
      var s := ValidHasPath(word, dict, t);
      LookForDictSound(word, dict, i0);
      assert IsSegmentation(word, dict, i0, s);
    } else if s :| IsSegmentation(word, dict, i0, s) {
      var t := LookForDictComplete(word, dict, i0, s);
    }
  }

  lemma {:induction false} PrependNoDuplicates(v: nat, ss: seq<Code>)
    requires NoDuplicates(ss)
    ensures NoDuplicates(Prepend(v, ss))
  {
    var r := Prepend(v, ss);
    forall a, b | 0 <= a < b < |r|
      ensures r[a] != r[b]
    {
      assert r[a][1..] == ss[a];
      assert r[b][1..] == ss[b];
    }
  }

  /** Roots with distinct, increasing tokens flatten to pairwise distinct sequences
      when each root does. */
  lemma {:induction false} ForestNoDuplicates(ts: seq<Tree>)
    requires InDictionaryOrder(ts)
    requires forall t :: t in ts ==> !t.end && NoDuplicates(Flatten(t))
    ensures NoDuplicates(FlattenForest(ts))
    decreases ts
  {
    if |ts| > 0 {
      var rest := ts[1..];
      assert InDictionaryOrder(rest) by {
        forall a, b | 0 <= a < b < |rest|
          ensures rest[a].value < rest[b].value
        {
          assert rest[a] == ts[a + 1] && rest[b] == ts[b + 1];
        }
      }
      ForestNoDuplicates(rest);
      FlattenForestPaths(rest);
      forall s | s in FlattenForest(rest)
        ensures |s| > 0 && s[0] > ts[0].value
      {
        var t :| t in rest && IsPath(t, s);
        var k :| 0 <= k < |rest| && rest[k] == t;
        assert ts[k + 1] == t;
      }
      ConcatNoDuplicates(Flatten(ts[0]), FlattenForest(rest));
    }
  }

  /** The search never reports the same segmentation twice. */
  lemma {:induction false} LookForDictNoDuplicates(word: string, dict: seq<string>, i0: nat)
    requires NoEmptyEntry(dict)
    ensures LookForDict(word, dict, i0).Some? ==> NoDuplicates(FlattenForest(LookForDict(word, dict, i0).value))
    decreases Remaining(word, i0)
  {
    var r := LookForDict(word, dict, i0);
    if r.Some? && i0 < |word| {
      forall t | t in r.value
        ensures !t.end && NoDuplicates(Flatten(t))
      {
        LookForDictRoot(word, dict, i0, t);
        LookForDictNoDuplicates(word, dict, i0 + |dict[t.value]|);
        FlattenIsPrependedForest(t);
        PrependNoDuplicates(t.value, FlattenForest(t.children));
      }
      LookForDictOrdered(word, dict, i0);
      ForestNoDuplicates(r.value);
    }
  }

  /** The driver's per-word step: flatten every returned root and collect the
      results. It lists every segmentation of the whole word, each exactly once,
      and nothing else. */
  function WordSolutions(word: string, dict: seq<string>): (r: seq<Code>)
    requires NoEmptyEntry(dict)
    ensures forall s :: s in r <==> IsSegmentation(word, dict, 0, s)
    ensures NoDuplicates(r)
  {
    match LookForDict(word, dict, 0)
    case Some(roots) =>
      WordSolutionsSome(word, dict, roots);
      FlattenForest(roots)
    case None =>
      LookForDictNone(word, dict, 0);
      []
  }

  lemma WordSolutionsSome(word: string, dict: seq<string>, roots: seq<Tree>)
    requires NoEmptyEntry(dict)
    requires LookForDict(word, dict, 0) == Some(roots)
    ensures forall s :: s in FlattenForest(roots) <==> IsSegmentation(word, dict, 0, s)
    ensures NoDuplicates(FlattenForest(roots))
  {
    FlattenForestPaths(roots);
    LookForDictSound(word, dict, 0);
    LookForDictNoDuplicates(word, dict, 0);
    forall s
      ensures s in FlattenForest(roots) <==> IsSegmentation(word, dict, 0, s)
    {
      if s in FlattenForest(roots) {
        var t :| t in roots && IsPath(t, s);
        FlattenPaths(t);
      }
      if IsSegmentation(word, dict, 0, s) {
        var t := LookForDictComplete(word, dict, 0, s);
      }
    }
  }
}
