/**
 * The operation-counting linear search of `Metodo02.cpp`: `find` walks the
 * array until it meets `X`, adding 4 to the counter `ops` per iteration.
 * The C++ loop has no bound check, so its callers must guarantee that `X`
 * occurs in the array; the model states that as a precondition.
 */
module LinearSearch {

  /** The index of the first occurrence of `x` in `s`. */
  function FirstIndex(s: seq<int>, x: int): (k: nat)
    requires x in s
    ensures k < |s| && s[k] == x
    ensures forall i :: 0 <= i < k ==> s[i] != x
  {
    if s[0] == x then 0 else 1 + FirstIndex(s[1..], x)
  }

  /** `find(array, X, ops)`: the counter after the loop stops at the first `X`. */
  method Find(a: array<int>, x: int, ops: int) returns (r: int)
    requires x in a[..]
    ensures r == ops + 4 * (FirstIndex(a[..], x) + 1)
  {
    var achou := 0;
    var i := 0;
    r := ops;
    ghost var k := FirstIndex(a[..], x);
    while achou == 0
      invariant 0 <= i <= k + 1
      invariant achou == 0 ==> i <= k
      invariant achou != 0 ==> i == k + 1
      invariant r == ops + 4 * i
      decreases k + 1 - i
    {
      if a[i] == x {
        achou := 1;
      }
      i := i + 1;
      r := r + 4;
    }
  }

  /** The program's own run: `{4,3,1,8,2,7,5}`, `x = 2`, `ops = 9` gives 29. */
  method ExampleRun() returns (r: int)
    ensures r == 29
  {
    var v := new int[7];
    v[0], v[1], v[2], v[3], v[4], v[5], v[6] := 4, 3, 1, 8, 2, 7, 5;
    assert v[..] == [4, 3, 1, 8, 2, 7, 5];
    assert v[4] == 2;
    r := Find(v, 2, 9);
    assert FirstIndex(v[..], 2) == 4 by {
      assert v[..][4] == 2;
    }
  }
}
