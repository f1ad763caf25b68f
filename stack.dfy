/** The bounded, top-addressed Stack. The class keeps the fields of the C++
    object: the node list from `head` (here a sequence whose index 0 is the
    top), the separately maintained `dataSize`, and the `limit`. Its methods
    are tied to a functional model, `StackValue` and the `...Spec` functions,
    about which the lemmas at the end are stated. */
module Stacks {
  import opened Values
  import opened Errors

  /** The elements in the opposite order. */
  function Reversed<T>(s: seq<T>): (r: seq<T>)
    ensures |r| == |s|
  {
    if s == [] then [] else Reversed(s[1..]) + [s[0]]
  }

  lemma {:induction false} ReversedAt<T>(s: seq<T>, k: nat)
    requires k < |s|
    ensures Reversed(s)[k] == s[|s| - 1 - k]
  {
    if k < |s| - 1 {
      ReversedAt(s[1..], k);
    }
  }

  lemma ReversedAppend<T>(a: seq<T>, b: seq<T>)
    ensures Reversed(a + b) == Reversed(b) + Reversed(a)
  {
    var l, r := Reversed(a + b), Reversed(b) + Reversed(a);
    forall k | 0 <= k < |l| ensures l[k] == r[k] {
      ReversedAt(a + b, k);
      if k < |b| { ReversedAt(b, k); } else { ReversedAt(a, k - |b|); }
    }
  }

  lemma ReversedInvolution<T>(s: seq<T>)
    ensures Reversed(Reversed(s)) == s
  {
    var r := Reversed(Reversed(s));
    forall k | 0 <= k < |s| ensures r[k] == s[k] {
      ReversedAt(Reversed(s), k);
      ReversedAt(s, |s| - 1 - k);
    }
  }

  // ---------------------------------------------------------------------
  // Functional model

  /** A stack as a value: the elements from the top down and the limit. */
  datatype StackValue = StackValue(elems: seq<Element>, limit: nat)

  /** The invariant every Stack keeps. */
  predicate Bounded(v: StackValue) {
    |v.elems| <= v.limit
  }

  /** push: fails with StackOverflowError(limit) when the stack is full;
      otherwise the element becomes the new top. */
  function PushSpec(v: StackValue, e: Element): (r: Result<StackValue>)
    ensures r.Ok? <==> |v.elems| < v.limit
    ensures r.Err? ==> r.error == StackOverflowError(v.limit)
    ensures r.Ok? ==> |r.value.elems| == |v.elems| + 1 && r.value.elems[0] == e
    ensures r.Ok? ==> r.value.elems[1..] == v.elems && r.value.limit == v.limit
  {
    if |v.elems| >= v.limit then Err(StackOverflowError(v.limit))
    else Ok(StackValue([e] + v.elems, v.limit))
  }

  /** pop: hands back the top and the stack below it; StackUnderflowError on
      an empty stack. */
  function PopSpec(v: StackValue): (r: Result<(Element, StackValue)>)
    ensures r.Ok? <==> v.elems != []
    ensures r.Err? ==> r.error == StackUnderflowError
    ensures r.Ok? ==> v.elems == [r.value.0] + r.value.1.elems && r.value.1.limit == v.limit
  {
    if v.elems == [] then Err(StackUnderflowError)
    else Ok((v.elems[0], StackValue(v.elems[1..], v.limit)))
  }

  /** setLimit: fails with StackOverflowError(n) exactly when the elements
      would not fit under the new limit. */
  function SetLimitSpec(v: StackValue, n: nat): (r: Result<StackValue>)
    ensures r.Ok? <==> |v.elems| <= n
    ensures r.Err? ==> r.error == StackOverflowError(n)
    ensures r.Ok? ==> r.value.elems == v.elems && r.value.limit == n
  {
    if |v.elems| > n then Err(StackOverflowError(n)) else Ok(StackValue(v.elems, n))
  }

  /** A stack operation, as an input to the bound lemma. */
  datatype Op = PushOp(e: Element) | PopOp | SetLimitOp(n: nat) | ClearOp | ReverseOp

  /** The stack after one operation; a failed operation leaves it unchanged. */
  function Apply(v: StackValue, op: Op): StackValue {
    match op
    case PushOp(e) => (match PushSpec(v, e) case Ok(w) => w case Err(_) => v)
    case PopOp => (match PopSpec(v) case Ok(p) => p.1 case Err(_) => v)
    case SetLimitOp(n) => (match SetLimitSpec(v, n) case Ok(w) => w case Err(_) => v)
    case ClearOp => StackValue([], v.limit)
    case ReverseOp => StackValue(Reversed(v.elems), v.limit)
  }

  function Run(v: StackValue, ops: seq<Op>): StackValue
    decreases |ops|
  {
    if ops == [] then v else Run(Apply(v, ops[0]), ops[1..])
  }

  /** size <= limit holds after every sequence of operations. */
  lemma {:induction false} RunKeepsBound(v: StackValue, ops: seq<Op>)
    requires Bounded(v)
    ensures Bounded(Run(v, ops))
    decreases |ops|
  {
    if ops != [] {
      RunKeepsBound(Apply(v, ops[0]), ops[1..]);
    }
  }

  /** A successful push is undone by a pop, which hands back the pushed element. */
  lemma PushThenPop(v: StackValue, e: Element)
    requires PushSpec(v, e).Ok?
    ensures PopSpec(PushSpec(v, e).value) == Ok((e, v))
  {
    assert ([e] + v.elems)[1..] == v.elems;
  }

  /** Pushing onto a full stack always fails and leaves it unchanged. */
  lemma PushFull(v: StackValue, e: Element)
    requires |v.elems| == v.limit
    ensures PushSpec(v, e) == Err(StackOverflowError(v.limit))
    ensures Apply(v, PushOp(e)) == v
  {
  }

  /** Reversing twice restores the stack; size and limit never change. */
  lemma ReverseReverse(v: StackValue)
    ensures Apply(Apply(v, ReverseOp), ReverseOp) == v
  {
    ReversedInvolution(v.elems);
  }

  // ---------------------------------------------------------------------
  // The object

  class Stack {
    /** The node list from `head`, top first. */
    var elems: seq<Element>
    var dataSize: nat
    var limit: nat

    ghost predicate Valid()
      reads this
    {
      dataSize == |elems| && dataSize <= limit
    }

    function Value(): StackValue
      reads this
    {
      StackValue(elems, limit)
    }

    /** The default stack: empty, with limit max size_t (effectively unbounded). */
    constructor ()
      ensures Valid() && elems == [] && limit == SIZE_MAX
    {
      elems, dataSize, limit := [], 0, SIZE_MAX;
    }

    /** An empty stack with the given limit. */
    constructor WithLimit(lim: nat)
      ensures Valid() && elems == [] && limit == lim
    {
      elems, dataSize, limit := [], 0, lim;
    }

    /** The copy constructor, as its declaration promises: an independent
        stack holding the same elements under the same limit (its body is not
        part of this model). */
    constructor Copy(other: Stack)
      requires other.Valid()
      ensures Valid() && Value() == other.Value()
    {
      elems, dataSize, limit := other.elems, other.dataSize, other.limit;
    }

    method Push(e: Element) returns (r: Outcome)
      requires Valid()
      modifies this
      ensures Valid()
      ensures r.Pass? <==> PushSpec(old(Value()), e).Ok?
      ensures r.Fail? ==> r.error == PushSpec(old(Value()), e).error
      ensures Value() == Apply(old(Value()), PushOp(e))
    {
      if dataSize >= limit {
        return Fail(StackOverflowError(limit));
      }
      elems := [e] + elems;
      dataSize := dataSize + 1;
      r := Pass;
    }

    /** pop hands the removed top to the caller. */
    method Pop() returns (r: Result<Element>)
      requires Valid()
      modifies this
      ensures Valid()
      ensures r.Ok? <==> PopSpec(old(Value())).Ok?
      ensures r.Ok? ==> r.value == PopSpec(old(Value())).value.0
      ensures r.Err? ==> r.error == StackUnderflowError
      ensures Value() == Apply(old(Value()), PopOp)
    {
      if elems == [] {
        return Err(StackUnderflowError);
      }
      r := Ok(elems[0]);
      elems := elems[1..];
      dataSize := dataSize - 1;
    }

    /** top: the top element, or StackUnderflowError on an empty stack. */
    method Top() returns (r: Result<Element>)
      requires Valid()
      ensures r.Ok? <==> elems != []
      ensures r.Ok? ==> r.value == elems[0]
      ensures r.Err? ==> r.error == StackUnderflowError
    {
      if dataSize == 0 {
        return Err(StackUnderflowError);
      }
      r := Ok(elems[0]);
    }

    method Size() returns (n: nat)
      requires Valid()
      ensures n == |elems|
    {
      n := dataSize;
    }

    method GetLimit() returns (n: nat)
      requires Valid()
      ensures n == limit && |elems| <= n
    {
      n := limit;
    }

    method IsEmpty() returns (b: bool)
      requires Valid()
      ensures b <==> elems == []
    {
      b := dataSize == 0;
    }

    method SetLimit(n: nat) returns (r: Outcome)
      requires Valid()
      modifies this
      ensures Valid()
      ensures r.Pass? <==> SetLimitSpec(old(Value()), n).Ok?
      ensures r.Fail? ==> r.error == StackOverflowError(n)
      ensures Value() == Apply(old(Value()), SetLimitOp(n))
    {
      if dataSize > n {
        return Fail(StackOverflowError(n));
      }
      limit := n;
      r := Pass;
    }

    /** clear: pops until the node list is empty, then zeroes the size. */
    method Clear()
      requires Valid()
      modifies this
      ensures Valid()
      ensures Value() == Apply(old(Value()), ClearOp)
    {
      while elems != []
        invariant Valid() && limit == old(limit)
        decreases |elems|
      {
        var _ := Pop();
      }
      dataSize := 0;
    }

    /** reverse, as its declaration promises: the same elements, top to
        bottom in the opposite order, under the same limit. Its body is not
        part of this model, so only the effect is stated. */
    method Reverse()
      requires Valid()
      modifies this
      ensures Valid()
      ensures Value() == Apply(old(Value()), ReverseOp)
    {
      elems := Reversed(elems);
    }
  }
}
