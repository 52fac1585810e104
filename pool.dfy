/**
 * Model of `Pool<T>` (src/AsyncSocket.Core/Patterns/Pool.cs): a LIFO free-list of
 * reusable instances backed by a stack. The stack is a sequence whose LAST element
 * is the top. Thread safety of the underlying concurrent stack is not modelled.
 */
module Pool {
  import opened Wrappers

  /** What `Pop` yields on a stack `s`, and the stack it leaves behind. */
  function Popped<T>(s: seq<T>): (r: (Option<T>, seq<T>))
    ensures s == [] ==> r == (None, [])
    ensures s != [] ==> r.0 == Some(s[|s| - 1]) && r.1 + [s[|s| - 1]] == s
  {
    if s == [] then (None, []) else (Some(s[|s| - 1]), s[..|s| - 1])
  }

  /** A single call on a pool, for reasoning about sequences of calls. */
  datatype PoolOp<T> = PushOp(item: T) | PopOp

  /** The stack reached by running `ops` on `s`, and the values the `Pop`s returned, in order. */
  function Run<T>(s: seq<T>, ops: seq<PoolOp<T>>): (seq<T>, seq<Option<T>>)
    decreases |ops|
  {
    if ops == [] then (s, [])
    else
      match ops[0]
      case PushOp(x) => Run(s + [x], ops[1..])
      case PopOp =>
        var (item, rest) := Popped(s);
        var (final, out) := Run(rest, ops[1..]);
        (final, [item] + out)
  }

  /** Number of pushes in a call sequence. */
  function Pushes<T>(ops: seq<PoolOp<T>>): nat
  {
    if ops == [] then 0 else (if ops[0].PushOp? then 1 else 0) + Pushes(ops[1..])
  }

  /** Number of pops that returned an item. */
  function Hits<T>(out: seq<Option<T>>): nat
  {
    if out == [] then 0 else (if out[0].Some? then 1 else 0) + Hits(out[1..])
  }

  /** `Count` is always the initial count plus the pushes minus the successful pops. */
  lemma {:induction false} CountConservation<T>(s: seq<T>, ops: seq<PoolOp<T>>)
    ensures |Run(s, ops).0| + Hits(Run(s, ops).1) == |s| + Pushes(ops)
    decreases |ops|
  {
    if ops != [] {
      match ops[0]
      case PushOp(x) =>
        CountConservation(s + [x], ops[1..]);
      case PopOp =>
        var (item, rest) := Popped(s);
        CountConservation(rest, ops[1..]);
        var out := Run(rest, ops[1..]).1;
        assert ([item] + out)[1..] == out;
    }
  }

  /** Pushes `xs` in order. */
  function PushAll<T>(xs: seq<T>): (ops: seq<PoolOp<T>>)
    ensures |ops| == |xs|
  {
    if xs == [] then [] else [PushOp(xs[0])] + PushAll(xs[1..])
  }

  /** `n` pops. */
  function PopTimes<T>(n: nat): (ops: seq<PoolOp<T>>)
    ensures |ops| == n
  {
    if n == 0 then [] else [PopOp] + PopTimes(n - 1)
  }

  function Reverse<T>(xs: seq<T>): seq<T>
  {
    if xs == [] then [] else Reverse(xs[1..]) + [xs[0]]
  }

  function Somes<T>(xs: seq<T>): (r: seq<Option<T>>)
    ensures |r| == |xs|
  {
    if xs == [] then [] else [Some(xs[0])] + Somes(xs[1..])
  }

  lemma {:induction false} RunAppend<T>(s: seq<T>, a: seq<PoolOp<T>>, b: seq<PoolOp<T>>)
    ensures Run(s, a + b).0 == Run(Run(s, a).0, b).0
    ensures Run(s, a + b).1 == Run(s, a).1 + Run(Run(s, a).0, b).1
    decreases |a|
  {
    if a == [] {
      assert a + b == b;
    } else {
      assert (a + b)[0] == a[0];
      assert (a + b)[1..] == a[1..] + b;
      match a[0]
      case PushOp(x) =>
        RunAppend(s + [x], a[1..], b);
      case PopOp =>
        var (item, rest) := Popped(s);
        RunAppend(rest, a[1..], b);
    }
  }

  lemma {:induction false} PushAllStack<T>(s: seq<T>, xs: seq<T>)
    ensures Run(s, PushAll(xs)) == (s + xs, [])
    decreases |xs|
  {
    if xs != [] {
      var ops := PushAll(xs);
      assert ops[0] == PushOp(xs[0]) && ops[1..] == PushAll(xs[1..]);
      PushAllStack(s + [xs[0]], xs[1..]);
      assert s + [xs[0]] + xs[1..] == s + xs;
    } else {
      assert s + xs == s;
    }
  }

  lemma {:induction false} PopTimesStack<T>(s: seq<T>, xs: seq<T>)
    ensures Run(s + xs, PopTimes(|xs|)) == (s, Somes(Reverse(xs)))
    decreases |xs|
  {
    if xs != [] {
      var n := |xs|;
      var last := xs[n - 1];
      var init := xs[..n - 1];
      assert s + xs == (s + init) + [last];
      assert Popped(s + xs) == (Some(last), s + init);
      var ops := PopTimes<T>(n);
      assert ops[0] == PopOp && ops[1..] == PopTimes(|init|);
      PopTimesStack(s, init);
      assert xs == init + [last];
      ReverseSnoc(init, last);
      var r := Reverse(xs);
      assert r == [last] + Reverse(init);
      assert Somes(r)[1..] == Somes(Reverse(init)) by { assert r[1..] == Reverse(init); }
    } else {
      assert s + xs == s;
    }
  }

  lemma {:induction false} ReverseSnoc<T>(xs: seq<T>, x: T)
    ensures Reverse(xs + [x]) == [x] + Reverse(xs)
    decreases |xs|
  {
    if xs == [] {
      assert [] + [x] == [x];
    } else {
      assert (xs + [x])[0] == xs[0];
      assert (xs + [x])[1..] == xs[1..] + [x];
      ReverseSnoc(xs[1..], x);
    }
  }

  /**
   * LIFO order: pushing `xs` and then popping as many times returns the items in
   * reverse order of pushing and restores the pool to exactly its prior contents.
   */
  lemma LastInFirstOut<T>(s: seq<T>, xs: seq<T>)
    ensures Run(s, PushAll(xs) + PopTimes(|xs|)) == (s, Somes(Reverse(xs)))
  {
    RunAppend(s, PushAll(xs), PopTimes(|xs|));
    PushAllStack(s, xs);
    PopTimesStack(s, xs);
    var out := Run(s + xs, PopTimes<T>(|xs|)).1;
    assert [] + out == out;
  }

  /** `Push` makes no duplicate check: an item pushed twice is popped twice. */
  lemma DuplicatePush<T>(s: seq<T>, x: T)
    ensures Run(s, [PushOp(x), PushOp(x), PopOp, PopOp]) == (s, [Some(x), Some(x)])
  {
    LastInFirstOut(s, [x, x]);
    assert PushAll([x, x]) == [PushOp(x), PushOp(x)] by {
      assert PushAll([x]) == [PushOp(x)];
      assert [x, x][1..] == [x];
    }
    assert PopTimes<T>(2) == [PopOp, PopOp];
    assert Reverse([x, x]) == [x, x] by {
      assert [x, x][1..] == [x];
      assert Reverse([x]) == [x];
    }
    assert Somes([x, x]) == [Some(x), Some(x)] by { assert [x, x][1..] == [x]; }
    assert PushAll([x, x]) + PopTimes(2) == [PushOp(x), PushOp(x), PopOp, PopOp];
  }

  /** `Pop` on an empty pool changes nothing and yields no item, however often it is repeated. */
  lemma {:induction false} PopEmpty<T>(n: nat)
    ensures Run([], PopTimes<T>(n)).0 == []
    ensures Run([], PopTimes<T>(n)).1 == seq(n, _ => None)
    decreases n
  {
    if n > 0 {
      PopEmpty<T>(n - 1);
      assert PopTimes<T>(n)[1..] == PopTimes<T>(n - 1);
    }
  }

  /** The pool: a stack of available instances. */
  class Pool<T> {
    /** The available instances; the last one is the top of the stack. */
    var items: seq<T>

    constructor ()
      ensures items == []
    {
      items := [];
    }

    /** `Count`: the current number of available instances. */
    function Count(): int
      reads this
    {
      |items|
    }

    /** Pops the most recently pushed instance; `None` (the C# `default`) when empty. */
    method Pop() returns (item: Option<T>)
      modifies this
      ensures (item, items) == Popped(old(items))
      ensures Count() == if old(items) == [] then 0 else old(Count()) - 1
    {
      if items == [] {
        item := None;
      } else {
        item := Some(items[|items| - 1]);
        items := items[..|items| - 1];
      }
    }

    /** Makes `item` available again: it becomes the next one `Pop` returns. */
    method Push(item: T)
      modifies this
      ensures items == old(items) + [item]
      ensures Count() == old(Count()) + 1
      ensures Popped(items) == (Some(item), old(items))
    {
      items := items + [item];
    }
  }
}
