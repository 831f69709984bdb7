/** `generate_unique_index` of otb/utils.cpp: a function-local static
    `uint32_t` counter, returned and then incremented. The static becomes an
    object that callers pass explicitly. */
module UniqueIndex {
  import opened Scalar

  class IndexCounter {
    /** `next_free_index` */
    var next: nat

    ghost predicate Valid()
      reads this
    {
      next < U32
    }

    /** The static starts at 0. */
    constructor ()
      ensures Valid() && next == 0
    {
      next := 0;
    }

    /** `return next_free_index++;` on a `uint32_t`. */
    method Generate() returns (index: U32Value)
      requires Valid()
      modifies this
      ensures Valid()
      ensures index == old(next)
      ensures next == Wrap32(old(next) + 1)
    {
      index := next;
      next := Wrap32(next + 1);
    }
  }

  /** The indices handed out by n successive calls when the counter starts
      at `start`. */
  function Issued(start: U32Value, n: nat): (s: seq<U32Value>)
    ensures |s| == n
  {
    seq<U32Value>(n, i requires 0 <= i < n => Wrap32(start + i))
  }

  /** Calling once more extends the issued indices by the counter's value. */
  lemma {:induction false} IssuedStep(start: U32Value, n: nat)
    ensures Issued(start, n + 1) == Issued(start, n) + [Wrap32(start + n)]
    ensures Wrap32(Wrap32(start + n) + 1) == Wrap32(start + n + 1)
  {
    assert Issued(start, n + 1)[..n] == Issued(start, n);
    var q := (start + n) / U32;
    assert start + n == q * U32 + Wrap32(start + n);
    assert start + n + 1 == q * U32 + (Wrap32(start + n) + 1);
    if Wrap32(start + n) + 1 == U32 {
      assert start + n + 1 == (q + 1) * U32;
    }
  }

  /** Until the counter wraps (fewer than 2^32 calls), the issued indices
      are strictly increasing, each one more than the previous, and so
      pairwise distinct. */
  lemma IssuedIncreasing(start: U32Value, n: nat)
    requires start + n <= U32
    ensures forall i :: 0 <= i < n ==> Issued(start, n)[i] == start + i
    ensures forall i, j :: 0 <= i < j < n ==> Issued(start, n)[i] < Issued(start, n)[j]
  {
    forall i | 0 <= i < n
      ensures Issued(start, n)[i] == start + i
    {
      assert Issued(start, n)[i] == Wrap32(start + i);
      assert 0 <= start + i < U32;
    }
  }

  /** After 2^32 calls the counter is back where it started, so the next
      index repeats the first one. */
  lemma IssuedWrapsAround(start: U32Value)
    ensures Issued(start, U32 + 1)[U32] == Issued(start, U32 + 1)[0]
  {
    var s := Issued(start, U32 + 1);
    assert s[0] == Wrap32(start);
    assert s[U32] == Wrap32(start + U32);
    assert (start + U32) % U32 == start;
  }
}
