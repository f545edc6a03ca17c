/** Splitting a queue into consecutive slices, one per capacity, in order:
    slice i takes the next `caps[i]` elements of what the earlier slices
    left, or all of it when fewer remain. */
module Partition {

  function Min(a: int, b: int): int
  {
    if a <= b then a else b
  }

  /** The first `k` elements of `s`, or all of `s` when it is shorter. */
  function Take<T>(s: seq<T>, k: nat): (r: seq<T>)
    ensures r == s[..Min(k, |s|)]
  {
    if k <= |s| then s[..k] else s
  }

  /** What is left of `s` after its first `k` elements. */
  function Drop<T>(s: seq<T>, k: nat): (r: seq<T>)
    ensures r == s[Min(k, |s|)..]
  {
    if k <= |s| then s[k..] else []
  }

  function Sum(caps: seq<nat>): nat
  {
    if caps == [] then 0 else caps[0] + Sum(caps[1..])
  }

  function Flatten<T>(ss: seq<seq<T>>): seq<T>
  {
    if ss == [] then [] else ss[0] + Flatten(ss[1..])
  }

  /** The slices cut from `queue`, one per capacity. */
  function Slices<T>(queue: seq<T>, caps: seq<nat>): (r: seq<seq<T>>)
    ensures |r| == |caps|
  {
    if caps == [] then []
    else [Take(queue, caps[0])] + Slices(Drop(queue, caps[0]), caps[1..])
  }

  /** What remains of `queue` once every slice has been cut. */
  function Leftover<T>(queue: seq<T>, caps: seq<nat>): seq<T>
  {
    if caps == [] then queue
    else Leftover(Drop(queue, caps[0]), caps[1..])
  }

  /** Where slice `i` starts when the queue is long enough: the sum of the
      capacities before it. */
  function Start(caps: seq<nat>, i: nat): nat
    requires i <= |caps|
  {
    if i == 0 then 0 else Start(caps, i - 1) + caps[i - 1]
  }

  /** Later slices never start before earlier ones. */
  lemma {:induction false} StartMonotone(caps: seq<nat>, i: nat, j: nat)
    requires i <= j <= |caps|
    ensures Start(caps, i) <= Start(caps, j)
  {
    if i < j {
      StartMonotone(caps, i, j - 1);
    }
  }

  /** Start of slice i + 1 of `caps` is `caps[0]` plus the start of slice i
      of `caps[1..]`. */
  lemma {:induction false} StartTail(caps: seq<nat>, i: nat)
    requires i < |caps|
    ensures Start(caps, i + 1) == caps[0] + Start(caps[1..], i)
  {
    if i > 0 {
      StartTail(caps, i - 1);
    }
  }

  /** The start past the last slice is the sum of all capacities. */
  lemma {:induction false} StartIsSum(caps: seq<nat>)
    ensures Start(caps, |caps|) == Sum(caps)
  {
    if caps != [] {
      StartIsSum(caps[1..]);
      StartTail(caps, |caps| - 1);
    }
  }

  /** Starts depend only on the capacities before them. */
  lemma {:induction false} StartPrefix(caps: seq<nat>, i: nat, j: nat)
    requires i <= j <= |caps|
    ensures Start(caps[..j], i) == Start(caps, i)
  {
    if i > 0 {
      StartPrefix(caps, i - 1, j);
    }
  }

  /** The queue left after cutting is what follows the first `Sum(caps)`
      elements (all of it consumed when the queue is shorter). */
  lemma {:induction false} LeftoverIsSuffix<T>(queue: seq<T>, caps: seq<nat>)
    ensures Leftover(queue, caps) == Drop(queue, Sum(caps))
  {
    if caps != [] {
      LeftoverIsSuffix(Drop(queue, caps[0]), caps[1..]);
      DropDrop(queue, caps[0], Sum(caps[1..]));
    }
  }

  /** Dropping `b` elements after dropping `a` drops `a + b`. */
  lemma {:induction false} DropDrop<T>(queue: seq<T>, a: nat, b: nat)
    ensures Drop(Drop(queue, a), b) == Drop(queue, a + b)
  {
    var m := Min(a, |queue|);
    assert queue[m..][Min(b, |queue| - m)..] == queue[m + Min(b, |queue| - m)..];
  }

  /** Slice i is cut from what the slices before it left. */
  lemma {:induction false} SliceFromLeftover<T>(queue: seq<T>, caps: seq<nat>, i: nat)
    requires i < |caps|
    ensures Slices(queue, caps)[i] == Take(Leftover(queue, caps[..i]), caps[i])
  {
    if i > 0 {
      var rest := Drop(queue, caps[0]);
      assert Slices(queue, caps)[i] == Slices(rest, caps[1..])[i - 1];
      SliceFromLeftover(rest, caps[1..], i - 1);
      assert caps[..i][0] == caps[0];
      assert caps[..i][1..] == caps[1..][..i - 1];
      assert Leftover(queue, caps[..i]) == Leftover(rest, caps[1..][..i - 1]);
    }
  }

  /** The leftover after the first i slices is what follows the start of
      slice i. */
  lemma {:induction false} LeftoverAt<T>(queue: seq<T>, caps: seq<nat>, i: nat)
    requires i <= |caps|
    ensures Leftover(queue, caps[..i]) == queue[Min(Start(caps, i), |queue|)..]
  {
    LeftoverIsSuffix(queue, caps[..i]);
    StartIsSum(caps[..i]);
    StartPrefix(caps, i, i);
  }

  /** Taking `c` elements after position `start` of `queue`. */
  lemma {:induction false} TakeAfter<T>(queue: seq<T>, start: nat, c: nat)
    ensures Take(queue[Min(start, |queue|)..], c) == queue[Min(start, |queue|)..Min(start + c, |queue|)]
  {
    var a := Min(start, |queue|);
    assert queue[a..][..Min(c, |queue| - a)] == queue[a..a + Min(c, |queue| - a)];
  }

  /** Slice i is exactly the part of the queue from the start of slice i
      to `caps[i]` elements further, cut off at the end of the queue. */
  lemma {:induction false} SliceAt<T>(queue: seq<T>, caps: seq<nat>, i: nat)
    requires i < |caps|
    ensures Slices(queue, caps)[i]
            == queue[Min(Start(caps, i), |queue|)..Min(Start(caps, i) + caps[i], |queue|)]
  {
    SliceFromLeftover(queue, caps, i);
    LeftoverAt(queue, caps, i);
    TakeAfter(queue, Start(caps, i), caps[i]);
  }

  /** Slice i holds `min(caps[i], remaining)` elements, where `remaining` is
      the length of the queue the earlier slices left; so it never holds
      more than its capacity. */
  lemma {:induction false} SliceLength<T>(queue: seq<T>, caps: seq<nat>, i: nat)
    requires i < |caps|
    ensures |Slices(queue, caps)[i]| == Min(caps[i], |Leftover(queue, caps[..i])|)
    ensures |Slices(queue, caps)[i]| <= caps[i]
  {
    SliceFromLeftover(queue, caps, i);
  }

  lemma {:induction false} TakeDrop<T>(s: seq<T>, k: nat)
    ensures Take(s, k) + Drop(s, k) == s
  {
  }

  /** The concatenated slices start with the first slice, followed by the
      concatenated slices of what it left. */
  lemma {:induction false} FlattenFirst<T>(queue: seq<T>, caps: seq<nat>)
    requires caps != []
    ensures Flatten(Slices(queue, caps))
            == Take(queue, caps[0]) + Flatten(Slices(Drop(queue, caps[0]), caps[1..]))
    ensures Leftover(queue, caps) == Leftover(Drop(queue, caps[0]), caps[1..])
  {
    var ss := Slices(queue, caps);
    assert ss[0] == Take(queue, caps[0]);
    assert ss[1..] == Slices(Drop(queue, caps[0]), caps[1..]);
  }

  /** The slices, concatenated in order, followed by the leftover give back
      the queue: the slices form a prefix and the leftover the matching
      suffix. */
  lemma {:induction false} SlicesCover<T>(queue: seq<T>, caps: seq<nat>)
    ensures Flatten(Slices(queue, caps)) + Leftover(queue, caps) == queue
  {
    if caps != [] {
      var first, rest := Take(queue, caps[0]), Drop(queue, caps[0]);
      var placed, left := Flatten(Slices(rest, caps[1..])), Leftover(rest, caps[1..]);
      assert (first + placed) + left == first + (placed + left);
      FlattenFirst(queue, caps);
      SlicesCover(rest, caps[1..]);
      TakeDrop(queue, caps[0]);
    }
  }

  /** The number of elements placed in slices is `min(|queue|, Sum(caps))`;
      the others stay in the leftover. */
  lemma {:induction false} PlacedCount<T>(queue: seq<T>, caps: seq<nat>)
    ensures |Flatten(Slices(queue, caps))| == Min(|queue|, Sum(caps))
    ensures |Leftover(queue, caps)| == |queue| - Min(|queue|, Sum(caps))
  {
    SlicesCover(queue, caps);
    LeftoverIsSuffix(queue, caps);
  }

  /** Cutting one more slice extends the slices by the next piece of the
      leftover and shortens the leftover accordingly. */
  lemma {:induction false} SlicesSnoc<T>(queue: seq<T>, caps: seq<nat>, c: nat)
    ensures Slices(queue, caps + [c]) == Slices(queue, caps) + [Take(Leftover(queue, caps), c)]
    ensures Leftover(queue, caps + [c]) == Drop(Leftover(queue, caps), c)
  {
    if caps != [] {
      var rest := Drop(queue, caps[0]);
      var longer := caps + [c];
      assert longer[0] == caps[0] && longer[1..] == caps[1..] + [c];
      assert Slices(queue, longer) == [Take(queue, caps[0])] + Slices(rest, caps[1..] + [c]);
      assert Leftover(queue, longer) == Leftover(rest, caps[1..] + [c]);
      assert Slices(queue, caps) == [Take(queue, caps[0])] + Slices(rest, caps[1..]);
      assert Leftover(queue, caps) == Leftover(rest, caps[1..]);
      SlicesSnoc(rest, caps[1..], c);
    } else {
      assert Slices(queue, [c]) == [Take(queue, c)] + Slices(Drop(queue, c), []);
    }
  }

  /** Every element of slice i sits in the queue at a position between the
      start of slice i and the start of slice i + 1. */
  lemma {:induction false} SliceElement<T>(queue: seq<T>, caps: seq<nat>, i: nat, k: nat)
    requires i < |caps| && k < |Slices(queue, caps)[i]|
    ensures Start(caps, i) + k < Start(caps, i + 1)
    ensures Start(caps, i) + k < |queue|
    ensures Slices(queue, caps)[i][k] == queue[Start(caps, i) + k]
  {
    SliceAt(queue, caps, i);
    WindowElement(queue, Start(caps, i), caps[i], k);
  }

  lemma {:induction false} WindowElement<T>(queue: seq<T>, start: nat, c: nat, k: nat)
    requires k < |queue[Min(start, |queue|)..Min(start + c, |queue|)]|
    ensures start + k < start + c && start + k < |queue|
    ensures queue[Min(start, |queue|)..Min(start + c, |queue|)][k] == queue[start + k]
  {
  }

  /** When the capacities add up to at least the queue's length, every
      element is placed and nothing is left over. */
  lemma {:induction false} AllPlacedWhenRoom<T>(queue: seq<T>, caps: seq<nat>)
    requires |queue| <= Sum(caps)
    ensures Flatten(Slices(queue, caps)) == queue
    ensures Leftover(queue, caps) == []
  {
    PlacedCount(queue, caps);
    SlicesCover(queue, caps);
  }

  /** Every element of one of the slices is in their concatenation. */
  lemma {:induction false} InFlatten<T>(ss: seq<seq<T>>, i: nat, x: T)
    requires i < |ss| && x in ss[i]
    ensures x in Flatten(ss)
  {
    if i > 0 {
      InFlatten(ss[1..], i - 1, x);
    }
  }
}
