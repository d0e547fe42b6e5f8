/** Turning segmentations into labelled solutions and selecting the ones wanted
    (src/main.rs: `Solution::new`, `filter_solution`, `remove_duplicates`). */
module Solutions {
  import opened Trees
  import opened Seqs

  /** The code length a wanted solution has, and the index of its first token
      (24th entry of the dictionary counted from one, so 23 counted from zero). */
  const WantedLength: nat := 7
  const WantedFirst: nat := 24 - 1

  function Pow10(k: nat): (r: nat)
    ensures r >= 1
  {
    if k == 0 then 1 else 10 * Pow10(k - 1)
  }

  predicate IsDigit(c: char) {
    '0' <= c <= '9'
  }

  /** The character for a single decimal digit. */
  function DigitChar(d: nat): (c: char)
    requires d < 10
    ensures IsDigit(c) && c as int - '0' as int == d
  {
    ('0' as int + d) as char
  }

  /** The decimal text of a non-negative index, as Rust's `format!("{}", e)` prints
      it: digits only, no sign, no leading zero, and exactly as many digits as
      the magnitude of the number requires. */
  function Decimal(n: nat): (r: string)
    ensures |r| > 0
    ensures forall k :: 0 <= k < |r| ==> IsDigit(r[k])
    ensures |r| > 1 ==> r[0] != '0'
    ensures n < Pow10(|r|)
    ensures |r| > 1 ==> Pow10(|r| - 1) <= n
    decreases n
  {
    if n < 10 then [DigitChar(n)] else Decimal(n / 10) + [DigitChar(n % 10)]
  }

  /** The number a string of decimal digits denotes. */
  function DecimalValue(s: string): nat
    requires forall k :: 0 <= k < |s| ==> IsDigit(s[k])
  {
    if |s| == 0 then 0
    else
      var last := s[|s| - 1];
      assert IsDigit(last);
      10 * DecimalValue(s[..|s| - 1]) + (last as int - '0' as int)
  }

  /** Printing an index and reading it back gives the index. */
  lemma {:induction false} DecimalRoundTrip(n: nat)
    ensures DecimalValue(Decimal(n)) == n
    decreases n
  {
    var r := Decimal(n);
    if n >= 10 {
      DecimalRoundTrip(n / 10);
      assert r[..|r| - 1] == Decimal(n / 10);
    }
  }

  /** Number of characters of `code` printed in decimal, index after index,
      summed from the left as the source's fold does. */
  function CodeLength(code: Code): nat
  {
    if |code| == 0 then 0 else CodeLength(code[..|code| - 1]) + |Decimal(code[|code| - 1])|
  }

  /** All indices of `code` printed in decimal, one after the other. */
  function Digits(code: Code): string
  {
    if |code| == 0 then [] else Digits(code[..|code| - 1]) + Decimal(code[|code| - 1])
  }

  /** The code length is the length of the code printed without separators; every
      index takes at least one character, so it is at least the number of
      indices, and it is zero only for the empty code. */
  lemma {:induction false} CodeLengthMeaning(code: Code)
    ensures CodeLength(code) == |Digits(code)|
    ensures CodeLength(code) >= |code|
    ensures CodeLength(code) == 0 <==> |code| == 0
  {
    if |code| > 0 {
      CodeLengthMeaning(code[..|code| - 1]);
    }
  }

  /** One entry of the result list: a word, one segmentation of it, and that
      segmentation's code length. */
  datatype Solution = Solution(word: string, code: Code, codeLength: nat)

  /** A solution whose stored code length is the one computed from its code, as
      every solution built by `NewSolution` is. */
  predicate WellFormed(sol: Solution) {
    sol.codeLength == CodeLength(sol.code)
  }

  /** Labels a segmentation of `word`. Its code length is the number of characters
      of the code printed in decimal, and at least the number of indices. */
  function NewSolution(word: string, code: Code): (sol: Solution)
    ensures sol.word == word && sol.code == code
    ensures WellFormed(sol)
    ensures sol.codeLength == |Digits(code)|
    ensures sol.codeLength >= |code|
  {
    CodeLengthMeaning(code);
    Solution(word, code, CodeLength(code))
  }

  /** The selection the filter makes, stated without the source's reliance on
      short-circuit evaluation: code length 7 and first index 23. */
  predicate Accepted(sol: Solution) {
    sol.codeLength == WantedLength && |sol.code| > 0 && sol.code[0] == WantedFirst
  }

  /** The filter's test as the source writes it. The first index is only read once
      the code length is known to be 7, and then the code cannot be empty. */
  function Keeps(sol: Solution): (b: bool)
    requires WellFormed(sol)
    ensures b <==> Accepted(sol)
  {
    CodeLengthMeaning(sol.code);
    sol.codeLength == WantedLength && sol.code[0] == WantedFirst
  }

  /** Reference definition of the selection: the accepted solutions, in order. */
  ghost function Select(xs: seq<Solution>): seq<Solution>
  {
    if |xs| == 0 then []
    else Select(xs[..|xs| - 1]) + (if Accepted(xs[|xs| - 1]) then [xs[|xs| - 1]] else [])
  }

  /** The selection keeps the accepted solutions, every copy of them, in order,
      and nothing else. */
  lemma {:induction false} SelectMeaning(xs: seq<Solution>)
    ensures IsSubsequence(Select(xs), xs)
    ensures forall k :: 0 <= k < |Select(xs)| ==> Accepted(Select(xs)[k])
    ensures forall x :: x in xs && Accepted(x) ==> multiset(Select(xs))[x] == multiset(xs)[x]
    ensures forall x :: !Accepted(x) ==> multiset(Select(xs))[x] == 0
  {
    SelectSubsequence(xs);
    SelectAccepted(xs);
    SelectCounts(xs);
  }

  lemma {:induction false} SelectSubsequence(xs: seq<Solution>)
    ensures IsSubsequence(Select(xs), xs)
  {
    if |xs| > 0 {
      var init := xs[..|xs| - 1];
      var last := xs[|xs| - 1];
      SelectSubsequence(init);
      assert xs == init + [last];
      assert Select(xs) == Select(init) + (if Accepted(last) then [last] else []);
      SubsequenceExtend(Select(init), init, last);
      if !Accepted(last) {
        assert Select(xs) == Select(init);
      }
    }
  }

  lemma {:induction false} SelectAccepted(xs: seq<Solution>)
    ensures forall k :: 0 <= k < |Select(xs)| ==> Accepted(Select(xs)[k])
  {
    if |xs| > 0 {
      SelectAccepted(xs[..|xs| - 1]);
    }
  }

  lemma {:induction false} SelectCounts(xs: seq<Solution>)
    ensures forall x :: Accepted(x) ==> multiset(Select(xs))[x] == multiset(xs)[x]
    ensures forall x :: !Accepted(x) ==> multiset(Select(xs))[x] == 0
  {
    if |xs| > 0 {
      var init := xs[..|xs| - 1];
      var last := xs[|xs| - 1];
      SelectCounts(init);
      assert xs == init + [last];
      assert multiset(xs) == multiset(init) + multiset{last};
    }
  }

  /** `filter_solution`: the solutions with code length 7 whose first index is 23,
      in their original order, every copy kept. */
  method FilterSolution(input: seq<Solution>) returns (out: seq<Solution>)
    requires forall k :: 0 <= k < |input| ==> WellFormed(input[k])
    ensures IsSubsequence(out, input)
    ensures forall k :: 0 <= k < |out| ==> Accepted(out[k])
    ensures out == Select(input)
  {
    out := [];
    var i := 0;
    while i < |input|
      invariant 0 <= i <= |input|
      invariant out == Select(input[..i])
    {
      var sol := input[i];
      assert input[..i + 1][..i] == input[..i];
      if Keeps(sol) {
        out := out + [sol];
      }
      i := i + 1;
    }
    assert input[..i] == input;
    SelectMeaning(input);
  }

  /** What `remove_duplicates` has built after looking at `src[..i]`: the distinct
      elements seen so far, each once, at strictly increasing first occurrences
      `pos`. */
  ghost predicate DedupSoFar<T>(src: seq<T>, i: nat, out: seq<T>, pos: seq<nat>)
    requires i <= |src|
  {
    && NoDuplicates(out)
    && (forall k :: 0 <= k < i ==> src[k] in out)
    && IsSubsequence(out, src[..i])
    && |pos| == |out|
    && (forall a :: 0 <= a < |out| ==> pos[a] < i && FirstAt(src, pos[a], out[a]))
    && (forall a, b :: 0 <= a < b < |out| ==> pos[a] < pos[b])
  }

  /** Before the loop nothing has been seen and nothing kept. */
  lemma DedupStart<T>(src: seq<T>)
    ensures DedupSoFar(src, 0, [], [])
  {
  }

  /** One turn of the loop of `remove_duplicates` keeps `DedupSoFar`: an element
      already kept is skipped, ... */
  lemma DedupSkip<T>(src: seq<T>, i: nat, out: seq<T>, pos: seq<nat>)
    requires i < |src| && DedupSoFar(src, i, out, pos) && src[i] in out
    ensures DedupSoFar(src, i + 1, out, pos)
  {
    assert src[..i + 1] == src[..i] + [src[i]];
    SubsequenceExtend(out, src[..i], src[i]);
  }

  /** The recorded first occurrences stay first occurrences, in increasing order,
      when one more is added after all of them. */
  lemma AppendFirstAt<T>(src: seq<T>, i: nat, out: seq<T>, pos: seq<nat>, e: T)
    requires |pos| == |out| && FirstAt(src, i, e)
    requires forall a :: 0 <= a < |out| ==> pos[a] < i && FirstAt(src, pos[a], out[a])
    requires forall a, b :: 0 <= a < b < |out| ==> pos[a] < pos[b]
    ensures forall a :: 0 <= a < |out| + 1 ==> (pos + [i])[a] < i + 1 && FirstAt(src, (pos + [i])[a], (out + [e])[a])
    ensures forall a, b :: 0 <= a < b < |out| + 1 ==> (pos + [i])[a] < (pos + [i])[b]
  {
    var out' := out + [e];
    var pos' := pos + [i];
    assert forall a :: 0 <= a < |out| ==> out'[a] == out[a] && pos'[a] == pos[a];
    assert out'[|out|] == e && pos'[|out|] == i;
  }

  /** ... and a new one is appended, first occurring at `i`. */
  lemma DedupAdd<T>(src: seq<T>, i: nat, out: seq<T>, pos: seq<nat>)
    requires i < |src| && DedupSoFar(src, i, out, pos) && src[i] !in out
    ensures DedupSoFar(src, i + 1, out + [src[i]], pos + [i])
  {
    var e := src[i];
    assert src[..i + 1] == src[..i] + [e];
    SubsequenceExtend(out, src[..i], e);
    AppendNoDuplicates(out, e);
    assert FirstAt(src, i, e) by {
      forall k | 0 <= k < i
        ensures src[k] != e
      {
        assert src[k] in out;
      }
    }
    AppendFirstAt(src, i, out, pos, e);
    assert forall k :: 0 <= k < i + 1 ==> src[k] in out + [e];
  }

  /** Once the whole input has been looked at, the invariant is the promise of
      `remove_duplicates`. */
  lemma DedupDone<T>(src: seq<T>, out: seq<T>, pos: seq<nat>)
    requires DedupSoFar(src, |src|, out, pos)
    ensures NoDuplicates(out)
    ensures forall x :: x in out <==> x in src
    ensures IsSubsequence(out, src)
    ensures forall a, b :: 0 <= a < b < |out| ==> FirstIndex(src, out[a]) < FirstIndex(src, out[b])
  {
    assert src[..|src|] == src;
    forall x | x in src
      ensures x in out
    {
      var k :| 0 <= k < |src| && src[k] == x;
    }
    forall a | 0 <= a < |out|
      ensures FirstIndex(src, out[a]) == pos[a]
    {
      FirstAtIndex(src, pos[a], out[a]);
    }
  }

  /** `remove_duplicates`: keeps the first occurrence of every element, in the
      order of first occurrence. */
  method RemoveDuplicates<T(==)>(src: seq<T>) returns (out: seq<T>)
    ensures NoDuplicates(out)
    ensures forall x :: x in out <==> x in src
    ensures IsSubsequence(out, src)
    ensures forall a, b :: 0 <= a < b < |out| ==> FirstIndex(src, out[a]) < FirstIndex(src, out[b])
  {
    out := [];
    ghost var pos: seq<nat> := [];
    var i := 0;
    DedupStart(src);
    while i < |src|
      invariant 0 <= i <= |src|
      invariant DedupSoFar(src, i, out, pos)
    {
      if src[i] !in out {
        DedupAdd(src, i, out, pos);
        out := out + [src[i]];
        pos := pos + [i];
      } else {
        DedupSkip(src, i, out, pos);
      }
      i := i + 1;
    }
    DedupDone(src, out, pos);
  }
}
