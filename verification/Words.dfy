/** The unsigned 64-bit arithmetic of the counters. C++ `uint64` addition and
    subtraction wrap around; every counter of the model is such a word. */
module Words {

  const TWO_TO_64: int := 0x1_0000_0000_0000_0000

  type u64 = x: int | 0 <= x < TWO_TO_64

  function Plus(a: u64, b: u64): u64 {
    if a + b < TWO_TO_64 then a + b else a + b - TWO_TO_64
  }

  function Minus(a: u64, b: u64): u64 {
    if b <= a then a - b else a - b + TWO_TO_64
  }

  function Sum(s: seq<u64>): u64 {
    if s == [] then 0 else Plus(Sum(s[..|s| - 1]), s[|s| - 1])
  }

  lemma PlusAssociates(a: u64, b: u64, c: u64)
    ensures Plus(Plus(a, b), c) == Plus(a, Plus(b, c))
  {
  }

  /** `(a + b) + c == (a + c) + b`: the order of two additions does not matter. */
  lemma PlusSwaps(a: u64, b: u64, c: u64)
    ensures Plus(Plus(a, b), c) == Plus(Plus(a, c), b)
  {
  }

  lemma {:induction false} SumOfZeros(s: seq<u64>)
    requires forall i :: 0 <= i < |s| ==> s[i] == 0
    ensures Sum(s) == 0
  {
    if s != [] {
      SumOfZeros(s[..|s| - 1]);
    }
  }

  lemma {:induction false} SumAppends(s: seq<u64>, t: seq<u64>)
    ensures Sum(s + t) == Plus(Sum(s), Sum(t))
  {
    if t == [] {
      assert s + t == s;
    } else {
      var front := t[..|t| - 1];
      assert (s + t)[..|s + t| - 1] == s + front;
      SumAppends(s, front);
      PlusAssociates(Sum(s), Sum(front), t[|t| - 1]);
    }
  }

  /** Summing two rows and adding the totals is summing the row of sums. */
  lemma {:induction false} SumDistributes(s: seq<u64>, t: seq<u64>, both: seq<u64>)
    requires |s| == |t| == |both|
    requires forall i :: 0 <= i < |s| ==> both[i] == Plus(s[i], t[i])
    ensures Sum(both) == Plus(Sum(s), Sum(t))
  {
    if s != [] {
      var n := |s| - 1;
      SumDistributes(s[..n], t[..n], both[..n]);
      var a, b, x, y := Sum(s[..n]), Sum(t[..n]), s[n], t[n];
      PlusAssociates(Plus(a, b), x, y);
      PlusSwaps(a, b, x);
      PlusAssociates(Plus(a, x), b, y);
    }
  }
}
