/** The pipeline `main` (src/main.rs) runs once the candidate words are loaded:
    duplicates are dropped, every word is segmented into chemical symbols, every
    segmentation becomes a solution, and the wanted solutions are selected. The
    dictionary (the program's lower-cased periodic table) is a parameter. */
module Driver {
  import opened Trees
  import opened Segmenter
  import opened Solutions
  import opened Seqs

  /** `x` is a well-formed solution whose code segments its word over `dict`. */
  ghost predicate Recorded(dict: seq<string>, x: Solution) {
    WellFormed(x) && IsSegmentation(x.word, dict, 0, x.code)
  }

  /** The solutions recorded for one word: one per segmentation, in the order the
      flattened trees list them. */
  function SolutionsFor(word: string, dict: seq<string>): (r: seq<Solution>)
    requires NoEmptyEntry(dict)
    ensures forall x :: x in r ==> x.word == word && Recorded(dict, x)
    ensures forall s :: IsSegmentation(word, dict, 0, s) ==> NewSolution(word, s) in r
    ensures NoDuplicates(r)
  {
    var codes := WordSolutions(word, dict);
    var r := seq(|codes|, k requires 0 <= k < |codes| => NewSolution(word, codes[k]));
    assert forall k :: 0 <= k < |r| ==> r[k].code == codes[k];
    assert forall s :: s in codes ==> NewSolution(word, s) in r by {
      forall s | s in codes
        ensures NewSolution(word, s) in r
      {
        var k :| 0 <= k < |codes| && codes[k] == s;
        assert r[k] == NewSolution(word, s);
      }
    }
    r
  }

  /** The solution set the driver loop builds from `words`: the solutions of the
      first word, then those of the others, in order. */
  function Collect(words: seq<string>, dict: seq<string>): (r: seq<Solution>)
    requires NoEmptyEntry(dict)
    ensures forall x :: x in r ==> x.word in words && Recorded(dict, x)
  {
    if |words| == 0 then []
    else SolutionsFor(words[0], dict) + Collect(words[1..], dict)
  }

  /** Nothing is lost on the way: every segmentation of every word yields its
      solution in the collected set. */
  lemma {:induction false} CollectComplete(words: seq<string>, dict: seq<string>, w: string, s: Code)
    requires NoEmptyEntry(dict)
    requires w in words && IsSegmentation(w, dict, 0, s)
    ensures NewSolution(w, s) in Collect(words, dict)
    decreases |words|
  {
    if w == words[0] {
      assert NewSolution(w, s) in SolutionsFor(w, dict);
    } else {
      assert w in words[1..];
      CollectComplete(words[1..], dict, w, s);
    }
  }

  /** Distinct words give distinct solutions, so the collected set of a
      duplicate-free word list has no repeats. */
  lemma {:induction false} CollectNoDuplicates(words: seq<string>, dict: seq<string>)
    requires NoEmptyEntry(dict)
    requires NoDuplicates(words)
    ensures NoDuplicates(Collect(words, dict))
    decreases |words|
  {
    if |words| > 0 {
      var rest := words[1..];
      assert NoDuplicates(rest) by {
        assert forall k :: 0 <= k < |rest| ==> rest[k] == words[k + 1];
      }
      assert words[0] !in rest;
      CollectNoDuplicates(rest, dict);
      ConcatNoDuplicates(SolutionsFor(words[0], dict), Collect(rest, dict));
    }
  }

  /** What survives the filter was collected, so it is a well-formed
      segmentation of one of the words. */
  lemma FoundSound(database: seq<string>, words: seq<string>, dict: seq<string>, found: seq<Solution>)
    requires NoEmptyEntry(dict)
    requires forall x :: x in words ==> x in database
    requires IsSubsequence(found, Collect(words, dict))
    ensures forall k :: 0 <= k < |found| ==>
      found[k].word in database && WellFormed(found[k]) && IsSegmentation(found[k].word, dict, 0, found[k].code)
  {
    SubsequenceMembers(found, Collect(words, dict));
    forall k | 0 <= k < |found|
      ensures found[k].word in database && WellFormed(found[k]) && IsSegmentation(found[k].word, dict, 0, found[k].code)
    {
      assert found[k] in Collect(words, dict);
    }
  }

  /** A wanted solution that was collected survives the filter. */
  lemma FoundComplete(words: seq<string>, dict: seq<string>, w: string, s: Code)
    requires NoEmptyEntry(dict)
    requires w in words && IsSegmentation(w, dict, 0, s) && Accepted(NewSolution(w, s))
    ensures NewSolution(w, s) in Select(Collect(words, dict))
  {
    var all := Collect(words, dict);
    CollectComplete(words, dict, w, s);
    SelectMeaning(all);
    assert multiset(all)[NewSolution(w, s)] > 0;
  }

  /** The whole run on a list of candidate words: every reported solution is a
      wanted segmentation of one of the words, built by `Solution::new` (its code
      length is the real one), and every wanted segmentation of every word is
      reported, once. */
  method Crack(database: seq<string>, dict: seq<string>) returns (found: seq<Solution>)
    requires NoEmptyEntry(dict)
    ensures forall k :: 0 <= k < |found| ==>
      && found[k].word in database && Accepted(found[k])
      && found[k] == NewSolution(found[k].word, found[k].code)
      && IsSegmentation(found[k].word, dict, 0, found[k].code)
    ensures forall w, s :: w in database && IsSegmentation(w, dict, 0, s) && Accepted(NewSolution(w, s)) ==>
      NewSolution(w, s) in found
    ensures NoDuplicates(found)
  {
    var words := RemoveDuplicates(database);
    var all := Collect(words, dict);
    found := FilterSolution(all);
    FoundSound(database, words, dict, found);
    CollectNoDuplicates(words, dict);
    SubsequenceNoDuplicates(found, all);
    forall w, s | w in database && IsSegmentation(w, dict, 0, s) && Accepted(NewSolution(w, s))
      ensures NewSolution(w, s) in found
    {
      FoundComplete(words, dict, w, s);
    }
  }
}
