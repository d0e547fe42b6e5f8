/** The search tree built while segmenting one word, and its flattening into the
    list of token-index sequences it stands for (src/main.rs, `struct Tree`). */
module Trees {

  /** One node of a segmentation attempt.
      `level` is the offset in the word where this node's token match begins,
      `value` is the dictionary index of the token consumed at this node,
      `children` are the continuations after that token, and `end` marks the node
      that stands for "the word is fully consumed" (its `value` is meaningless). */
  datatype Tree = Tree(level: nat, value: nat, children: seq<Tree>, end: bool)

  /** A sequence of token indices, one per node on a root-to-leaf path. */
  type Code = seq<nat>

  /** A node for token `value` matched at offset `level`, with no continuation yet. */
  function NewNode(level: nat, value: nat): (t: Tree)
    ensures !t.end && t.level == level && t.value == value && t.children == []
  {
    Tree(level, value, [], false)
  }

  /** The node standing for "nothing left to consume". */
  function NewTermination(level: nat): (t: Tree)
    ensures t.end && t.level == level && t.children == []
  {
    Tree(level, 0, [], true)
  }

  /** Adds continuations after the existing children. */
  function AppendChildren(t: Tree, cs: seq<Tree>): (r: Tree)
    ensures r.level == t.level && r.value == t.value && r.end == t.end
    ensures r.children == t.children + cs
  {
    t.(children := t.children + cs)
  }

  /** Puts `v` in front of every sequence of `ss`. */
  function Prepend(v: nat, ss: seq<Code>): (r: seq<Code>)
    ensures |r| == |ss|
    ensures forall k :: 0 <= k < |r| ==> r[k] == [v] + ss[k]
  {
    seq(|ss|, k requires 0 <= k < |ss| => [v] + ss[k])
  }

  /** Every complete token-index sequence the tree stands for, one per
      root-to-terminal path, in child order. */
  function Flatten(t: Tree): (r: seq<Code>)
    ensures t.end ==> r == [[]]
    ensures !t.end ==> forall s :: s in r ==> |s| > 0 && s[0] == t.value
    decreases t
  {
    if t.end then [[]] else FlattenAll(t.value, t.children)
  }

  /** The loop body of `flatten` for a non-terminal node with token `v`: each
      child's flattening with `v` prepended, concatenated in child order. */
  function FlattenAll(v: nat, cs: seq<Tree>): (r: seq<Code>)
    ensures forall s :: s in r ==> |s| > 0 && s[0] == v
    decreases cs
  {
    if |cs| == 0 then [] else Prepend(v, Flatten(cs[0])) + FlattenAll(v, cs[1..])
  }

  /** The flattenings of several roots, concatenated in order (what the driver
      collects for one word). */
  function FlattenForest(ts: seq<Tree>): seq<Code>
    decreases ts
  {
    if |ts| == 0 then [] else Flatten(ts[0]) + FlattenForest(ts[1..])
  }

  /** `s` labels a path from `t` down to a terminal node: one token index per
      non-terminal node, nothing for the terminal node. */
  ghost predicate IsPath(t: Tree, s: Code)
    decreases t
  {
    if t.end then s == []
    else |s| > 0 && s[0] == t.value && exists c :: c in t.children && IsPath(c, s[1..])
  }

  /** A path through one child, with the node's token in front, is a path of the
      node. */
  lemma PathThrough(t: Tree, c: Tree, s: Code)
    requires !t.end && |s| > 0 && s[0] == t.value
    requires c in t.children && IsPath(c, s[1..])
    ensures IsPath(t, s)
  {
  }

  /** Number of terminal nodes below (and including) `t`. */
  function Leaves(t: Tree): nat
    decreases t
  {
    if t.end then 1 else LeavesAll(t.children)
  }

  function LeavesAll(cs: seq<Tree>): nat
    decreases cs
  {
    if |cs| == 0 then 0 else Leaves(cs[0]) + LeavesAll(cs[1..])
  }

  lemma {:induction false} PrependMember(v: nat, ss: seq<Code>, s: Code)
    ensures s in Prepend(v, ss) <==> |s| > 0 && s[0] == v && s[1..] in ss
  {
    var r := Prepend(v, ss);
    if s in r {
      var k :| 0 <= k < |r| && r[k] == s;
      assert s[1..] == ss[k];
    }
    if |s| > 0 && s[0] == v && s[1..] in ss {
      var k :| 0 <= k < |ss| && ss[k] == s[1..];
      assert r[k] == s;
    }
  }

  lemma {:induction false} PrependAppend(v: nat, a: seq<Code>, b: seq<Code>)
    ensures Prepend(v, a + b) == Prepend(v, a) + Prepend(v, b)
  {
  }

  lemma {:induction false} FlattenAllAppend(v: nat, a: seq<Tree>, b: seq<Tree>)
    ensures FlattenAll(v, a + b) == FlattenAll(v, a) + FlattenAll(v, b)
    decreases |a|
  {
    if |a| == 0 {
      assert a + b == b;
    } else {
      assert (a + b)[1..] == a[1..] + b;
      FlattenAllAppend(v, a[1..], b);
    }
  }

  lemma {:induction false} LeavesAllAppend(a: seq<Tree>, b: seq<Tree>)
    ensures LeavesAll(a + b) == LeavesAll(a) + LeavesAll(b)
    decreases |a|
  {
    if |a| == 0 {
      assert a + b == b;
    } else {
      assert (a + b)[1..] == a[1..] + b;
      LeavesAllAppend(a[1..], b);
    }
  }

  /** A sequence is produced by `flatten` exactly when it labels a root-to-terminal
      path of the tree. */
  lemma {:induction false} FlattenPaths(t: Tree)
    ensures forall s :: s in Flatten(t) <==> IsPath(t, s)
    decreases t
  {
    if !t.end {
      FlattenAllPaths(t.value, t.children);
    }
  }

  lemma {:induction false} FlattenAllPaths(v: nat, cs: seq<Tree>)
    ensures forall s :: s in FlattenAll(v, cs) <==>
      |s| > 0 && s[0] == v && exists c :: c in cs && IsPath(c, s[1..])
    decreases cs
  {
    if |cs| > 0 {
      FlattenPaths(cs[0]);
      FlattenAllPaths(v, cs[1..]);
      forall s
        ensures s in FlattenAll(v, cs) <==>
          |s| > 0 && s[0] == v && exists c :: c in cs && IsPath(c, s[1..])
      {
        PrependMember(v, Flatten(cs[0]), s);
        if |s| > 0 && s[0] == v {
          if c :| c in cs && IsPath(c, s[1..]) {
            if c != cs[0] {
              assert c in cs[1..];
            }
          }
        }
      }
    }
  }

  /** The roots' flattenings together hold exactly the paths of the roots. */
  lemma {:induction false} FlattenForestPaths(ts: seq<Tree>)
    ensures forall s :: s in FlattenForest(ts) <==> exists t :: t in ts && IsPath(t, s)
    decreases ts
  {
    if |ts| > 0 {
      FlattenPaths(ts[0]);
      FlattenForestPaths(ts[1..]);
      forall s
        ensures s in FlattenForest(ts) <==> exists t :: t in ts && IsPath(t, s)
      {
        if s in Flatten(ts[0]) {
          assert ts[0] in ts && IsPath(ts[0], s);
        } else if s in FlattenForest(ts[1..]) {
          var t :| t in ts[1..] && IsPath(t, s);
          assert t in ts;
        }
        if t :| t in ts && IsPath(t, s) {
          if t != ts[0] {
            assert t in ts[1..];
          }
        }
      }
    }
  }

  /** Flattening a token node is the same as flattening its children as a forest
      and putting the node's token in front of every result. */
  lemma {:induction false} FlattenIsPrependedForest(t: Tree)
    requires !t.end
    ensures Flatten(t) == Prepend(t.value, FlattenForest(t.children))
  {
    FlattenAllIsPrepend(t.value, t.children);
  }

  lemma {:induction false} FlattenAllIsPrepend(v: nat, cs: seq<Tree>)
    ensures FlattenAll(v, cs) == Prepend(v, FlattenForest(cs))
    decreases cs
  {
    if |cs| > 0 {
      FlattenAllIsPrepend(v, cs[1..]);
      PrependAppend(v, Flatten(cs[0]), FlattenForest(cs[1..]));
    }
  }

  /** `flatten` yields one sequence per terminal node. */
  lemma {:induction false} FlattenCount(t: Tree)
    ensures |Flatten(t)| == Leaves(t)
    decreases t
  {
    if !t.end {
      FlattenAllCount(t.value, t.children);
    }
  }

  lemma {:induction false} FlattenAllCount(v: nat, cs: seq<Tree>)
    ensures |FlattenAll(v, cs)| == LeavesAll(cs)
    decreases cs
  {
    if |cs| > 0 {
      FlattenCount(cs[0]);
      FlattenAllCount(v, cs[1..]);
    }
  }

  /** A fresh token node stands for no complete segmentation at all, which is why
      the search keeps such a node only once continuations have been appended. */
  lemma FlattenNewNode(level: nat, value: nat)
    ensures Flatten(NewNode(level, value)) == []
    ensures Leaves(NewNode(level, value)) == 0
  {
  }

  /** The termination node stands for exactly one way to finish: the empty one. */
  lemma FlattenNewTermination(level: nat)
    ensures Flatten(NewTermination(level)) == [[]]
    ensures Leaves(NewTermination(level)) == 1
  {
  }

  /** Appending continuations to a token node appends their solutions, in order,
      to the ones the node already stood for. */
  lemma FlattenAppendChildren(t: Tree, cs: seq<Tree>)
    requires !t.end
    ensures Flatten(AppendChildren(t, cs)) == Flatten(t) + FlattenAll(t.value, cs)
    ensures Leaves(AppendChildren(t, cs)) == Leaves(t) + LeavesAll(cs)
  {
    FlattenAllAppend(t.value, t.children, cs);
    LeavesAllAppend(t.children, cs);
  }
}
