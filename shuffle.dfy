/**
 * The page's "shuffle": it sorts an array in place with a comparator that
 * ignores its arguments and answers `random() - 0.5` from a generator
 * seeded with the given seed. Which permutation comes out depends on the
 * sort algorithm of the script engine; here a binary insertion sort, one
 * comparison sort an engine may use, asks the comparator where each
 * element goes. The contract promises only what every
 * comparison sort guarantees: the array is a permutation of what it was.
 */
module Shuffle {
  import opened SeededRandom

  method RandomiseArray<T>(a: array<T>, seed: int) returns (r: array<T>)
    requires seed > 0
    modifies a
    ensures r == a
    ensures multiset(a[..]) == multiset(old(a[..]))
  {
    var random := new Generator(seed);
    var i := 1;
    while i < a.Length
      invariant random.Valid()
      invariant multiset(a[..]) == multiset(old(a[..]))
    {
      // Find the slot of a[i] among a[..i], asking the comparator at each step.
      var left, right := 0, i;
      while left < right
        invariant 0 <= left <= right <= i
        invariant random.Valid()
        invariant multiset(a[..]) == multiset(old(a[..]))
        modifies random
      {
        var mid := left + (right - left) / 2;
        var x := random.Next();
        var order := x - 0.5;
        if order < 0.0 {
          right := mid;
        } else {
          left := mid + 1;
        }
      }
      // Move a[i] down to that slot, shifting a[left..i] up by one.
      var j := i;
      while j > left
        invariant left <= j <= i
        invariant multiset(a[..]) == multiset(old(a[..]))
        modifies a
      {
        a[j - 1], a[j] := a[j], a[j - 1];
        j := j - 1;
      }
      i := i + 1;
    }
    r := a;
  }
}
