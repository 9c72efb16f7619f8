/** Additive costs with an explicit infinity, standing in for the floating-point
    distances (and `np.inf`) of the unit-selection decoder. */
module Costs {

  /** The outcome of an operation that the source can abort with an exception. */
  datatype Result<T, E> = Success(value: T) | Failure(error: E)

  /** A non-probabilistic cost: a finite amount or the infinity sentinel that
      the decoder uses to forbid staying on a corpus frame. */
  datatype Cost = Fin(n: real) | Inf

  /** Float addition restricted to the values that occur: infinity absorbs. */
  function Add(a: Cost, b: Cost): (r: Cost)
    ensures r.Fin? <==> a.Fin? && b.Fin?
    ensures r.Fin? ==> r.n == a.n + b.n
  {
    if a.Fin? && b.Fin? then Fin(a.n + b.n) else Inf
  }

  /** `a <= b`, with infinity above every finite cost and equal to itself. */
  predicate Le(a: Cost, b: Cost)
  {
    b.Inf? || (a.Fin? && a.n <= b.n)
  }

  /** `a < b`; infinity is not less than infinity. */
  predicate Lt(a: Cost, b: Cost)
  {
    a.Fin? && (b.Inf? || a.n < b.n)
  }

  /** Adding the same cost on the right keeps an inequality. */
  lemma AddMonotone(a: Cost, b: Cost, c: Cost)
    requires Le(a, b)
    ensures Le(Add(a, c), Add(b, c))
  {
  }

  lemma LeTrans(a: Cost, b: Cost, c: Cost)
    requires Le(a, b) && Le(b, c)
    ensures Le(a, c)
  {
  }

  lemma LtLeTrans(a: Cost, b: Cost, c: Cost)
    requires Lt(a, b) && Le(b, c)
    ensures Lt(a, c)
  {
  }

  /** `i` is the position `np.argmin` reports: a minimum, and the first one. */
  predicate IsFirstMin(c: seq<Cost>, i: nat)
  {
    i < |c| &&
    (forall j :: 0 <= j < |c| ==> Le(c[i], c[j])) &&
    (forall j :: 0 <= j < i ==> Lt(c[i], c[j]))
  }

  /** The lowest index of a minimum entry (the stable argmin); lemma
      FirstMinIsFirst states what it finds. */
  function FirstMin(c: seq<Cost>): (r: nat)
    requires |c| > 0
    ensures r < |c|
    decreases |c|
  {
    if |c| == 1 then 0
    else
      var k := FirstMin(c[..|c| - 1]);
      if Lt(c[|c| - 1], c[k]) then |c| - 1 else k
  }

  /** `FirstMin` finds a minimum entry, and no earlier entry is as small. */
  lemma {:induction false} FirstMinIsFirst(c: seq<Cost>)
    requires |c| > 0
    ensures IsFirstMin(c, FirstMin(c))
    decreases |c|
  {
    if |c| > 1 {
      var d := c[..|c| - 1];
      FirstMinIsFirst(d);
      var k := FirstMin(d);
      assert forall j :: 0 <= j < |d| ==> d[j] == c[j];
      if !Lt(c[|c| - 1], c[k]) {
        assert Le(c[k], c[|c| - 1]);
      } else {
        forall j | 0 <= j < |c| - 1 ensures Lt(c[|c| - 1], c[j]) {
          LtLeTrans(c[|c| - 1], c[k], c[j]);
        }
      }
    }
  }

  /** Only one position is the first minimum, so any scan that keeps the first
      strict improvement lands on `FirstMin`. */
  lemma FirstMinUnique(c: seq<Cost>, i: nat)
    requires IsFirstMin(c, i)
    ensures i == FirstMin(c)
  {
    FirstMinIsFirst(c);
  }

  /** The minimum entry (`np.amin`). */
  function MinOf(c: seq<Cost>): (m: Cost)
    requires |c| > 0
  {
    c[FirstMin(c)]
  }
}
