/** The Fibonacci universal code of run lengths: the module-global table
    filled by `largestFiboLessOrEqual`, the greedy `fibonacciEncoding`, and
    `fibonacci_decoding`. The code of `n` is its Zeckendorf representation
    (least significant position first) followed by a terminating `'1'`. */
module Fibonacci {

  /** Number of slots of the preallocated table (`N = 100`). */
  const TableSize: nat := 100

  /** The table the source builds: `fib[0] = 1`, `fib[1] = 2`,
      `fib[k] = fib[k-1] + fib[k-2]`. */
  function Fib(k: nat): (f: nat)
  {
    if k == 0 then 1 else if k == 1 then 2 else Fib(k - 1) + Fib(k - 2)
  }

  lemma {:induction false} FibPositive(k: nat)
    ensures Fib(k) >= 1
  {
    if k >= 2 { FibPositive(k - 1); FibPositive(k - 2); }
  }

  lemma {:induction false} FibStrictlyIncreasing(i: nat, j: nat)
    requires i < j
    ensures Fib(i) < Fib(j)
  {
    if j >= 2 {
      FibPositive(j - 2);
      if i < j - 1 { FibStrictlyIncreasing(i, j - 1); }
    }
  }

  /** The value of the first `j` positions: `fib[i]` summed over every
      position `i < j` that holds `'1'`. */
  function FibSum(s: string, j: nat): (sum: nat)
    requires j <= |s|
  {
    if j == 0 then 0 else FibSum(s, j - 1) + (if s[j - 1] == '1' then Fib(j - 1) else 0)
  }

  /** What `fibonacci_decoding` computes: the sum of `fib[i]` over the `'1'`
      positions, the last character excluded, without any validation. */
  function FibonacciValue(code: string): (n: nat)
  {
    if |code| == 0 then 0 else FibSum(code, |code| - 1)
  }

  /** No two adjacent `'1'` among the first `j` positions. */
  predicate NoAdjacentOnes(s: string, j: nat)
    requires j <= |s|
  {
    forall k :: 0 <= k < j - 1 ==> !(s[k] == '1' && s[k + 1] == '1')
  }

  predicate Bits(s: string)
  {
    forall k :: 0 <= k < |s| ==> s[k] == '0' || s[k] == '1'
  }

  /** A well-formed codeword: bits only, ending in `"11"` (the last data bit
      and the terminator), and no `"11"` anywhere before that. */
  predicate IsFibonacciCodeword(code: string)
  {
    && |code| >= 2
    && Bits(code)
    && code[|code| - 2] == '1' && code[|code| - 1] == '1'
    && NoAdjacentOnes(code, |code| - 1)
  }

  lemma {:induction false} FibSumPrefix(s: string, t: string, j: nat)
    requires j <= |s| && j <= |t| && s[..j] == t[..j]
    ensures FibSum(s, j) == FibSum(t, j)
  {
    if j > 0 {
      assert s[j - 1] == s[..j][j - 1] == t[..j][j - 1] == t[j - 1];
      assert s[..j - 1] == s[..j][..j - 1];
      assert t[..j - 1] == t[..j][..j - 1];
      FibSumPrefix(s, t, j - 1);
    }
  }

  /** Writing character `c` at position `p` changes the value of the first
      `j` positions by what position `p` contributes before and after. */
  lemma {:induction false} FibSumUpdate(s: string, j: nat, p: nat, c: char)
    requires j <= |s| && p < |s|
    ensures FibSum(s[p := c], j) + (if p < j && s[p] == '1' then Fib(p) else 0)
         == FibSum(s, j) + (if p < j && c == '1' then Fib(p) else 0)
  {
    if j > 0 {
      FibSumUpdate(s, j - 1, p, c);
    }
  }

  lemma {:induction false} FibSumNoOnes(s: string, j: nat)
    requires j <= |s|
    requires forall k :: 0 <= k < j ==> s[k] != '1'
    ensures FibSum(s, j) == 0
  {
    if j > 0 { FibSumNoOnes(s, j - 1); }
  }

  /** A bit string without adjacent ones is worth less than the next table
      entry: the value of its first `j` positions stays below `fib[j]`. */
  lemma {:induction false} ZeckendorfBound(s: string, j: nat)
    requires j <= |s| && NoAdjacentOnes(s, j)
    ensures FibSum(s, j) < Fib(j)
  {
    if j == 0 {
    } else if s[j - 1] == '1' {
      if j >= 2 {
        assert s[j - 2] != '1';
        ZeckendorfBound(s, j - 2);
        FibPositive(j - 1);
      }
    } else {
      ZeckendorfBound(s, j - 1);
      FibStrictlyIncreasing(j - 1, j);
    }
  }

  /** Zeckendorf's uniqueness on a fixed width: two bit strings without
      adjacent ones that have the same value agree on those positions. */
  lemma {:induction false} ZeckendorfUniqueWidth(a: string, b: string, j: nat)
    requires j <= |a| && j <= |b|
    requires Bits(a[..j]) && Bits(b[..j])
    requires NoAdjacentOnes(a, j) && NoAdjacentOnes(b, j)
    requires FibSum(a, j) == FibSum(b, j)
    ensures a[..j] == b[..j]
  {
    if j > 0 {
      assert a[j - 1] == a[..j][j - 1] && b[j - 1] == b[..j][j - 1];
      assert a[..j - 1] == a[..j][..j - 1] && b[..j - 1] == b[..j][..j - 1];
      if a[j - 1] == '1' && b[j - 1] != '1' {
        ZeckendorfBound(b, j - 1);
        assert false;
      } else if b[j - 1] == '1' && a[j - 1] != '1' {
        ZeckendorfBound(a, j - 1);
        assert false;
      }
      assert a[j - 1] == b[j - 1];
      ZeckendorfUniqueWidth(a, b, j - 1);
      assert a[..j] == a[..j - 1] + [a[j - 1]];
      assert b[..j] == b[..j - 1] + [b[j - 1]];
    }
  }

  /** The value of a codeword fixes its length: `fib[|code|-2] <= value <
      fib[|code|-1]`. */
  lemma CodewordRange(code: string)
    requires IsFibonacciCodeword(code)
    ensures Fib(|code| - 2) <= FibonacciValue(code) < Fib(|code| - 1)
  {
    var j := |code| - 1;
    ZeckendorfBound(code, j);
    assert FibSum(code, j) == FibSum(code, j - 1) + Fib(j - 1);
  }

  /** Each value has at most one codeword: together with the encoder's
      contract, `fibonacciEncoding(n)` is the Zeckendorf code of `n`. */
  lemma CodewordUnique(a: string, b: string)
    requires IsFibonacciCodeword(a) && IsFibonacciCodeword(b)
    requires FibonacciValue(a) == FibonacciValue(b)
    ensures a == b
  {
    CodewordRange(a);
    CodewordRange(b);
    if |a| < |b| {
      FibStrictlyIncreasing(|a| - 1, |b| - 2);
    } else if |b| < |a| {
      FibStrictlyIncreasing(|b| - 1, |a| - 2);
    }
    assert |a| == |b|;
    var j := |a| - 1;
    assert Bits(a[..j]) && Bits(b[..j]);
    ZeckendorfUniqueWidth(a, b, j);
    assert a == a[..j] + [a[j]] && b == b[..j] + [b[j]];
  }

  /** `fibonacci_decoding`: builds its own local table `[1, 2, 3, 5, ...]`
      with at least `len(code)` entries, then sums `fib[i]` over the `'1'`
      positions before the last character. It never fails: `""` and
      one-character codes decode to 0. */
  method FibonacciDecoding(code: string) returns (result: nat)
    ensures result == FibonacciValue(code)
  {
    var fib: seq<nat> := [1, 2];
    while |fib| < |code|
      invariant |fib| >= 2
      invariant forall k {:trigger fib[k]} :: 0 <= k < |fib| ==> fib[k] == Fib(k)
    {
      fib := fib + [fib[|fib| - 1] + fib[|fib| - 2]];
    }
    result := 0;
    var i := 0;
    while i < |code| - 1
      invariant 0 <= i <= |code|
      invariant i <= |code| - 1 || i == 0
      invariant result == FibSum(code, i)
    {
      if code[i] == '1' {
        result := result + fib[i];
      }
      i := i + 1;
    }
  }

  /** The state of `fibonacciEncoding` at the head of its outer loop, with
      `s` the codeword buffer, `i` the next position to consider, `m` the
      part of `n` still to be written and `index` the largest position. */
  ghost predicate OuterState(s: seq<char>, i: int, m: nat, n: nat, index: nat)
  {
    && |s| == index + 2
    && -1 <= i <= index
    && m < Fib(i + 1)
    && (i >= 0 && m > 0 ==> Fib(i) <= m)
    && (m == 0 && 1 <= n ==> i == -1)
    && (forall k :: 0 <= k <= i ==> s[k] == '*')
    && (forall k :: i < k <= index ==> s[k] == '0' || s[k] == '1')
    && s[index + 1] == '*'
    && (i < index ==> s[index] == '1')
    && (0 <= i < index ==> s[i + 1] == '0')
    && NoAdjacentOnes(s, index + 1)
    && m + FibSum(s, index + 1) == n
    && (n == 0 ==> index == 0 && i == 0)
  }

  /** The state inside the inner loop that writes `'0'` below the position
      `top` just marked `'1'`. */
  ghost predicate InnerState(s: seq<char>, i: int, top: nat, m: nat, n: nat, index: nat)
  {
    && |s| == index + 2
    && top <= index && -1 <= i < top
    && m < Fib(i + 1)
    && (i == top - 1 && i >= 0 ==> m < Fib(i))
    && (forall k :: 0 <= k <= i ==> s[k] == '*')
    && (forall k :: i < k < top ==> s[k] == '0')
    && s[top] == '1'
    && (forall k :: top < k <= index ==> s[k] == '0' || s[k] == '1')
    && s[index + 1] == '*'
    && (top < index ==> s[top + 1] == '0')
    && (top < index ==> s[index] == '1')
    && NoAdjacentOnes(s, index + 1)
    && m + FibSum(s, index + 1) == n
    && 1 <= n
  }

  lemma EncoderStart(s: seq<char>, n: nat, index: nat)
    requires |s| == index + 2 && forall k :: 0 <= k < |s| ==> s[k] == '*'
    requires n < Fib(index + 1)
    requires 1 <= n ==> Fib(index) <= n
    requires n == 0 ==> index == 0
    ensures OuterState(s, index, n, n, index)
  {
    FibSumNoOnes(s, index + 1);
  }

  /** Taking `fib[top]`: the remainder falls below `fib[top - 1]`, which is
      what forces a `'0'` right below every `'1'`. */
  lemma EncoderMarkOne(s: seq<char>, top: int, m: nat, n: nat, index: nat)
    requires OuterState(s, top, m, n, index) && m != 0
    ensures 0 <= top && Fib(top) <= m
    ensures InnerState(s[top := '1'], top - 1, top, m - Fib(top), n, index)
  {
    FibSumUpdate(s, index + 1, top, '1');
    if top >= 1 {
      assert Fib(top + 1) == Fib(top) + Fib(top - 1);
    }
    var t := s[top := '1'];
    assert NoAdjacentOnes(t, index + 1) by {
      forall k | 0 <= k < index ensures !(t[k] == '1' && t[k + 1] == '1') {
        if k == top - 1 {
          assert t[k] == '*';
        } else if k == top {
          assert t[k + 1] == '0';
        } else {
          assert t[k] == s[k] && t[k + 1] == s[k + 1];
        }
      }
    }
  }

  lemma EncoderMarkZero(s: seq<char>, i: int, top: nat, m: nat, n: nat, index: nat)
    requires InnerState(s, i, top, m, n, index)
    requires i >= 0 && Fib(i) > m
    ensures InnerState(s[i := '0'], i - 1, top, m, n, index)
  {
    FibSumUpdate(s, index + 1, i, '0');
    var t := s[i := '0'];
    assert NoAdjacentOnes(t, index + 1) by {
      forall k | 0 <= k < index ensures !(t[k] == '1' && t[k + 1] == '1') {
        if k != i && k + 1 != i {
          assert t[k] == s[k] && t[k + 1] == s[k + 1];
        }
      }
    }
  }

  lemma EncoderInnerDone(s: seq<char>, i: int, top: nat, m: nat, n: nat, index: nat)
    requires InnerState(s, i, top, m, n, index)
    requires i < 0 || Fib(i) <= m
    ensures OuterState(s, i, m, n, index) && i < top
  {
    if m == 0 && i >= 0 {
      FibPositive(i);
    }
  }

  /** Writing the terminator once nothing remains yields the codeword. */
  lemma EncoderFinish(s: seq<char>, i: int, n: nat, index: nat)
    requires OuterState(s, i, 0, n, index)
    ensures n == 0 ==> s[index + 1 := '1'] == "*1"
    ensures 1 <= n ==> IsFibonacciCodeword(s[index + 1 := '1'])
    ensures 1 <= n ==> FibonacciValue(s[index + 1 := '1']) == n
  {
    var code := s[index + 1 := '1'];
    FibSumUpdate(s, index + 1, index + 1, '1');
    if 1 <= n {
      assert FibonacciValue(code) == FibSum(code, index + 1);
      assert NoAdjacentOnes(code, index + 1) by {
        forall k | 0 <= k < index ensures !(code[k] == '1' && code[k + 1] == '1') {
          assert code[k] == s[k] && code[k + 1] == s[k + 1];
        }
      }
    } else {
      assert code == ['*', '1'];
    }
  }

  /** The module-global `fib` array of 100 slots, filled on demand. */
  class FibTable {
    var fib: array<nat>

    ghost predicate Valid()
      reads this
    {
      fib.Length == TableSize
    }

    /** `fib = [0 for _ in range(N)]`. */
    constructor ()
      ensures Valid() && fresh(fib)
      ensures forall k :: 0 <= k < TableSize ==> fib[k] == 0
    {
      fib := new nat[TableSize](_ => 0);
    }

    /** `largestFiboLessOrEqual`: rewrites `fib[0] = 1, fib[1] = 2`, extends
        the table by the recurrence while the last entry is at most `n`, and
        returns the index of the largest entry `<= n`. A value `n >= fib[99]`
        would write past the 100 slots, so it is excluded. For `n = 0` the
        loop does not run and the index is 0. */
    method LargestFiboLessOrEqual(n: nat) returns (idx: nat)
      requires Valid()
      requires n < Fib(TableSize - 1)
      modifies fib
      ensures Valid()
      ensures idx + 1 < TableSize
      ensures forall k {:trigger fib[k]} :: 0 <= k <= idx + 1 ==> fib[k] == Fib(k)
      ensures forall k :: idx + 1 < k < TableSize ==> fib[k] == old(fib[k])
      ensures n < Fib(idx + 1)
      ensures 1 <= n ==> Fib(idx) <= n
      ensures n == 0 ==> idx == 0
    {
      fib[0] := 1;
      fib[1] := 2;
      var i := 2;
      while fib[i - 1] <= n
        invariant 2 <= i <= TableSize
        invariant forall k {:trigger fib[k]} :: 0 <= k < i ==> fib[k] == Fib(k)
        invariant forall k :: i <= k < TableSize ==> fib[k] == old(fib[k])
        invariant i > 2 ==> Fib(i - 2) <= n
        decreases TableSize - i
      {
        fib[i] := fib[i - 1] + fib[i - 2];
        i := i + 1;
      }
      if n == 0 {
        if i > 2 { FibPositive(i - 2); }
      }
      idx := i - 2;
    }

    /** `fibonacciEncoding`: marks the largest usable table position `'1'`,
        subtracts its entry, marks every position whose entry no longer fits
        `'0'`, repeats until nothing remains, and finally writes the
        terminator `'1'`. For `n = 0` the loop is skipped and `"*1"` comes
        back, the placeholder `'*'` surviving. */
    method FibonacciEncoding(n: nat) returns (code: string)
      requires Valid()
      requires n < Fib(TableSize - 1)
      modifies fib
      ensures Valid()
      ensures n == 0 ==> code == "*1"
      ensures 1 <= n ==> IsFibonacciCodeword(code)
      ensures 1 <= n ==> FibonacciValue(code) == n
      ensures 1 <= n ==> Fib(|code| - 2) <= n < Fib(|code| - 1)
      ensures |code| <= TableSize
      ensures forall k {:trigger fib[k]} :: 0 <= k < |code| ==> fib[k] == Fib(k)
      ensures forall k :: |code| <= k < TableSize ==> fib[k] == old(fib[k])
    {
      var index := LargestFiboLessOrEqual(n);
      code := WriteCodeword(n, index);
    }

    /** The codeword-writing part of `fibonacciEncoding`, given the index
        `largestFiboLessOrEqual` returned and the table it left behind. */
    method WriteCodeword(n: nat, index: nat) returns (code: string)
      requires Valid()
      requires index + 1 < TableSize
      requires forall k {:trigger fib[k]} :: 0 <= k <= index + 1 ==> fib[k] == Fib(k)
      requires n < Fib(index + 1)
      requires 1 <= n ==> Fib(index) <= n
      requires n == 0 ==> index == 0
      ensures |code| == index + 2
      ensures n == 0 ==> code == "*1"
      ensures 1 <= n ==> IsFibonacciCodeword(code)
      ensures 1 <= n ==> FibonacciValue(code) == n
    {
      var codeword := new char[index + 2](_ => '*');
      var i: int := index;
      var m: nat := n;
      EncoderStart(codeword[..], n, index);
      while m != 0
        modifies codeword
        invariant OuterState(codeword[..], i, m, n, index)
        decreases i + 1
      {
        var top := i;
        ghost var before := codeword[..];
        EncoderMarkOne(before, top, m, n, index);
        codeword[top] := '1';
        assert codeword[..] == before[top := '1'];
        m := m - fib[top];
        i := i - 1;
        while i >= 0 && fib[i] > m
          modifies codeword
          invariant InnerState(codeword[..], i, top, m, n, index)
          decreases i + 1
        {
          ghost var prev := codeword[..];
          EncoderMarkZero(prev, i, top, m, n, index);
          codeword[i] := '0';
          assert codeword[..] == prev[i := '0'];
          i := i - 1;
        }
        EncoderInnerDone(codeword[..], i, top, m, n, index);
      }
      ghost var data := codeword[..];
      codeword[index + 1] := '1';
      code := codeword[..];
      EncoderFinish(data, i, n, index);
    }

    /** Round trip of the two operations: decoding the codeword of `n` gives
        back `n`. */
    method FibonacciRoundTrip(n: nat) returns (decoded: nat)
      requires Valid()
      requires 1 <= n < Fib(TableSize - 1)
      modifies fib
      ensures Valid()
      ensures decoded == n
    {
      var code := FibonacciEncoding(n);
      decoded := FibonacciDecoding(code);
    }
  }
}
