/**
 The circular doubly linked list of the CF application (`cf_clist.c`).  The nodes are linked on the heap; a list object
 stands for the caller's head pointer and carries, as ghost state, the sequence its nodes form.
 */
module CircularList {

  /** `CF_CListNode_t`. */
  class CListNode {
    var next: CListNode
    var prev: CListNode

    constructor ()
      ensures IsSingle()
    {
      next, prev := this, this;
    }

    /** `CF_CList_InitNode`. */
    method InitNode()
      modifies this
      ensures IsSingle()
    {
      next := this;
      prev := this;
    }

    predicate IsSingle()
      reads this
    {
      next == this && prev == this
    }
  }

  function Succ(i: nat, n: nat): nat
  {
    if i + 1 == n then 0 else i + 1
  }

  function Pred(i: nat, n: nat): nat
    requires i < n
  {
    if i == 0 then n - 1 else i - 1
  }

  ghost predicate Distinct(s: seq<CListNode>) {
    forall i, j :: 0 <= i < j < |s| ==> s[i] != s[j]
  }

  /** next leads once around the nodes of s in order, and prev leads back. */
  ghost predicate Linked(s: seq<CListNode>)
    reads s
  {
    && (forall i {:trigger s[i].next} :: 0 <= i < |s| ==> s[i].next == s[Succ(i, |s|)])
    && (forall i {:trigger s[i].prev} :: 0 <= i < |s| ==> s[i].prev == s[Pred(i, |s|)])
  }

  /** What the callback of a traversal does on one call: whether it unlinks the node it is given, and whether it asks to
      go on.  It may depend on the number of calls made so far. */
  datatype Action = Action(unlink: bool, proceed: bool)

  type Callback = (nat, CListNode) -> Action

  /** How many calls a traversal of order makes if the first i have been made: up to the first that does not proceed. */
  function Calls(order: seq<CListNode>, fn: Callback, i: nat): (m: nat)
    requires i <= |order|
    ensures i <= m <= |order|
    decreases |order| - i
  {
    if i == |order| then i else if fn(i, order[i]).proceed then Calls(order, fn, i + 1) else i + 1
  }

  /** A traversal whose callback always asks to go on visits every node; one that is stopped, the nodes up to the first call that
      stops it. */
  lemma {:induction false} CallsMean(order: seq<CListNode>, fn: Callback, i: nat)
    requires i <= |order|
    ensures (forall j :: i <= j < |order| ==> fn(j, order[j]).proceed) ==> Calls(order, fn, i) == |order|
    ensures forall j :: i <= j < Calls(order, fn, i) - 1 ==> fn(j, order[j]).proceed
    ensures i < Calls(order, fn, i) < |order| ==> !fn(Calls(order, fn, i) - 1, order[Calls(order, fn, i) - 1]).proceed
    decreases |order| - i
  {
    if i < |order| && fn(i, order[i]).proceed {
      CallsMean(order, fn, i + 1);
    }
  }

  /** The first i nodes of order without those that the callback unlinked. */
  function Kept(order: seq<CListNode>, fn: Callback, i: nat): (s: seq<CListNode>)
    requires i <= |order|
    ensures |s| <= i
    ensures forall x :: x in s ==> x in order[..i]
  {
    if i == 0 then []
    else Kept(order, fn, i - 1) + if fn(i - 1, order[i - 1]).unlink then [] else [order[i - 1]]
  }

  /** What is left of the list after i calls. */
  function Left(order: seq<CListNode>, fn: Callback, i: nat): seq<CListNode>
    requires i <= |order|
  {
    Kept(order, fn, i) + order[i..]
  }

  lemma CallsStep(order: seq<CListNode>, fn: Callback, i: nat)
    requires i <= |order|
    ensures Calls(order, fn, i) ==
            if i == |order| then i else if fn(i, order[i]).proceed then Calls(order, fn, i + 1) else i + 1
  {
  }

  lemma LeftEnds(order: seq<CListNode>, fn: Callback)
    ensures Left(order, fn, 0) == order
  {
  }

  lemma LeftStep(order: seq<CListNode>, fn: Callback, i: nat)
    requires i < |order|
    ensures Left(order, fn, i)[|Kept(order, fn, i)|] == order[i]
    ensures i + 1 < |order| ==> Left(order, fn, i)[|Kept(order, fn, i)| + 1] == order[i + 1]
    ensures |Left(order, fn, i)| == |Kept(order, fn, i)| + (|order| - i)
    ensures Left(order, fn, i + 1) ==
            if fn(i, order[i]).unlink then Without(Left(order, fn, i), |Kept(order, fn, i)|) else Left(order, fn, i)
  {
    var a, x, b := Kept(order, fn, i), order[i], order[i + 1..];
    assert order[i..] == [x] + b;
    assert Kept(order, fn, i + 1) == a + if fn(i, x).unlink then [] else [x];
    hide Kept;
    SplicedOut(a, x, b);
  }

  function Reverse<T>(s: seq<T>): (r: seq<T>)
    ensures |r| == |s|
  {
    seq(|s|, i requires 0 <= i < |s| => s[|s| - 1 - i])
  }

  lemma ReverseAt<T>(s: seq<T>, i: nat)
    requires i < |s|
    ensures |Reverse(s)| == |s| && Reverse(s)[i] == s[|s| - 1 - i]
  {
  }

  lemma ReverseHas<T>(s: seq<T>)
    ensures forall x :: x in Reverse(s) <==> x in s
  {
    forall x | x in s
      ensures x in Reverse(s)
    {
      var i :| 0 <= i < |s| && s[i] == x;
      assert Reverse(s)[|s| - 1 - i] == x;
    }
  }

  function Without<T>(s: seq<T>, i: nat): seq<T>
    requires i < |s|
  {
    s[..i] + s[i + 1..]
  }

  /** What the links of s without its node k must be: the neighbours of k point at each other. */
  lemma LinkedWithout(s: seq<CListNode>, k: nat)
    requires Distinct(s) && k < |s| && |s| > 1
    requires forall j {:trigger s[j].next} :: 0 <= j < |s| && j != k ==>
               s[j].next == if j == Pred(k, |s|) then s[Succ(k, |s|)] else s[Succ(j, |s|)]
    requires forall j {:trigger s[j].prev} :: 0 <= j < |s| && j != k ==>
               s[j].prev == if j == Succ(k, |s|) then s[Pred(k, |s|)] else s[Pred(j, |s|)]
    ensures Linked(Without(s, k))
  {
    var t := Without(s, k);
    WithoutAt(s, k);
    forall i {:trigger t[i].next} | 0 <= i < |t|
      ensures t[i].next == t[Succ(i, |t|)]
    {
      var j := if i < k then i else i + 1;
      assert t[i] == s[j];
    }
    forall i {:trigger t[i].prev} | 0 <= i < |t|
      ensures t[i].prev == t[Pred(i, |t|)]
    {
      var j := if i < k then i else i + 1;
      assert t[i] == s[j];
    }
  }

  lemma WithAt<T>(s: seq<T>, k: nat, x: T, i: nat)
    requires k < |s| && i <= |s|
    ensures (s[..k + 1] + [x] + s[k + 1..])[i] == if i <= k then s[i] else if i == k + 1 then x else s[i - 1]
  {
  }

  lemma DistinctWith(s: seq<CListNode>, k: nat, x: CListNode)
    requires Distinct(s) && k < |s| && x !in s
    ensures Distinct(s[..k + 1] + [x] + s[k + 1..])
  {
    var t := s[..k + 1] + [x] + s[k + 1..];
    forall i, j | 0 <= i < j < |t|
      ensures t[i] != t[j]
    {
      WithAt(s, k, x, i);
      WithAt(s, k, x, j);
    }
  }

  /** What the links of s with x behind node k must be. */
  lemma LinkedWith(s: seq<CListNode>, k: nat, x: CListNode)
    requires Distinct(s) && k < |s| && x !in s
    requires forall j {:trigger s[j].next} :: 0 <= j < |s| ==>
               s[j].next == if j == k then x else s[Succ(j, |s|)]
    requires forall j {:trigger s[j].prev} :: 0 <= j < |s| ==>
               s[j].prev == if j == Succ(k, |s|) then x else s[Pred(j, |s|)]
    requires x.next == s[Succ(k, |s|)] && x.prev == s[k]
    ensures Linked(s[..k + 1] + [x] + s[k + 1..])
  {
    var t := s[..k + 1] + [x] + s[k + 1..];
    forall i {:trigger t[i].next} | 0 <= i < |t|
      ensures t[i].next == t[Succ(i, |t|)]
    {
      WithAt(s, k, x, i);
      WithAt(s, k, x, Succ(i, |t|));
    }
    forall i {:trigger t[i].prev} | 0 <= i < |t|
      ensures t[i].prev == t[Pred(i, |t|)]
    {
      WithAt(s, k, x, i);
      WithAt(s, k, x, Pred(i, |t|));
    }
  }

  /** The last i nodes of s without those that the callback unlinked on the way back from the end. */
  function KeptBack(s: seq<CListNode>, fn: Callback, i: nat): (t: seq<CListNode>)
    requires i <= |s|
    ensures |t| <= i
    ensures forall x :: x in t ==> x in s
  {
    if i == 0 then []
    else (if fn(i - 1, s[|s| - i]).unlink then [] else [s[|s| - i]]) + KeptBack(s, fn, i - 1)
  }

  function LeftBack(s: seq<CListNode>, fn: Callback, i: nat): seq<CListNode>
    requires i <= |s|
  {
    s[..|s| - i] + KeptBack(s, fn, i)
  }

  lemma LeftBackParts(s: seq<CListNode>, fn: Callback, i: nat)
    requires i < |s|
    ensures var a, x, rest := s[..|s| - 1 - i], s[|s| - 1 - i], KeptBack(s, fn, i);
            && LeftBack(s, fn, i) == a + [x] + rest
            && LeftBack(s, fn, i + 1) == if fn(i, x).unlink then a + rest else a + [x] + rest
  {
    var a, x, rest := s[..|s| - 1 - i], s[|s| - 1 - i], KeptBack(s, fn, i);
    assert s[..|s| - i] == a + [x];
    assert KeptBack(s, fn, i + 1) == (if fn(i, x).unlink then [] else [x]) + rest;
    hide KeptBack;
    SplicedOut(a, x, rest);
  }

  lemma LeftBackStep(s: seq<CListNode>, fn: Callback, i: nat)
    requires i < |s|
    ensures |LeftBack(s, fn, i)| > |s| - 1 - i
    ensures LeftBack(s, fn, i)[|s| - 1 - i] == s[|s| - 1 - i] == Reverse(s)[i]
    ensures i + 1 < |s| ==> LeftBack(s, fn, i)[|s| - 2 - i] == s[|s| - 2 - i]
    ensures LeftBack(s, fn, i + 1) ==
            if fn(i, s[|s| - 1 - i]).unlink then Without(LeftBack(s, fn, i), |s| - 1 - i) else LeftBack(s, fn, i)
  {
    LeftBackParts(s, fn, i);
    ReverseAt(s, i);
    var a, x, rest := s[..|s| - 1 - i], s[|s| - 1 - i], KeptBack(s, fn, i);
    assert a != [] ==> a[|a| - 1] == s[|s| - 2 - i];
    hide LeftBack, KeptBack, Reverse;
    SplicedOut(a, x, rest);
    SplicedAt(a, x, rest);
  }

  lemma SplicedAt(a: seq<CListNode>, x: CListNode, b: seq<CListNode>)
    ensures |a + [x] + b| > |a| && (a + [x] + b)[|a|] == x
    ensures a != [] ==> (a + [x] + b)[|a| - 1] == a[|a| - 1]
  {
  }

  /** A traversal leaves in the list, in their old order, exactly the nodes it did not reach or was not told to unlink. */
  lemma {:induction false} LeftMeans(order: seq<CListNode>, fn: Callback, m: nat, j: nat)
    requires Distinct(order) && m <= |order| && j < |order|
    ensures order[j] in Left(order, fn, m) <==> m <= j || !fn(j, order[j]).unlink
  {
    if m <= j {
      assert order[j] == Left(order, fn, m)[|Kept(order, fn, m)| + j - m];
    } else {
      KeptMeans(order, fn, m, j);
    }
  }

  lemma {:induction false} KeptMeans(order: seq<CListNode>, fn: Callback, m: nat, j: nat)
    requires Distinct(order) && j < m <= |order|
    ensures order[j] in Kept(order, fn, m) <==> !fn(j, order[j]).unlink
  {
    if j < m - 1 {
      KeptMeans(order, fn, m - 1, j);
    }
  }

  lemma SplicedOut(a: seq<CListNode>, x: CListNode, b: seq<CListNode>)
    ensures Without(a + [x] + b, |a|) == a + b && a + ([] + b) == a + [] + b == a + b && a + ([x] + b) == a + [x] + b
  {
  }

  lemma LeftBackEnds(s: seq<CListNode>, fn: Callback)
    ensures LeftBack(s, fn, 0) == s
  {
  }

  lemma {:induction false} KeptBackIsKept(s: seq<CListNode>, fn: Callback, i: nat)
    requires i <= |s|
    ensures KeptBack(s, fn, i) == Reverse(Kept(Reverse(s), fn, i))
  {
    if i > 0 {
      KeptBackIsKept(s, fn, i - 1);
      assert Reverse(s)[i - 1] == s[|s| - i];
    }
  }

  /** Walking back over s is walking forth over its reverse. */
  lemma LeftBackIsLeft(s: seq<CListNode>, fn: Callback, i: nat)
    requires i <= |s|
    ensures LeftBack(s, fn, i) == Reverse(Left(Reverse(s), fn, i))
  {
    KeptBackIsKept(s, fn, i);
  }

  // ---------------------------------------------------------------------------------------------------------------
  // Starting anywhere
  // ---------------------------------------------------------------------------------------------------------------

  /** The ring read from node r on. */
  function Rotated<T>(s: seq<T>, r: nat): seq<T>
    requires r <= |s|
  {
    s[r..] + s[..r]
  }

  /** Where the node k of the rotated ring stands in the ring. */
  function RingIndex(n: nat, r: nat, k: nat): (i: nat)
    requires r <= n && k < n
    ensures i < n
  {
    if k < n - r then r + k else k - (n - r)
  }

  lemma RotatedAt<T>(s: seq<T>, r: nat)
    requires r <= |s|
    ensures |Rotated(s, r)| == |s|
    ensures forall k :: 0 <= k < |s| ==> Rotated(s, r)[k] == s[RingIndex(|s|, r, k)]
    ensures forall x :: x in Rotated(s, r) <==> x in s
  {
    assert s == s[..r] + s[r..];
  }

  lemma RotatedIsDistinct(s: seq<CListNode>, r: nat)
    requires r <= |s| && Distinct(s)
    ensures Distinct(Rotated(s, r))
  {
    RotatedAt(s, r);
  }

  lemma RotatedIsLinked(s: seq<CListNode>, r: nat)
    requires r <= |s| && Linked(s)
    ensures Linked(Rotated(s, r))
  {
    RotatedAt(s, r);
    hide Rotated;
    var t := Rotated(s, r);
    forall k {:trigger t[k].next} | 0 <= k < |t|
      ensures t[k].next == t[Succ(k, |t|)]
    {
      assert RingIndex(|s|, r, Succ(k, |s|)) == Succ(RingIndex(|s|, r, k), |s|);
    }
    forall k {:trigger t[k].prev} | 0 <= k < |t|
      ensures t[k].prev == t[Pred(k, |t|)]
    {
      assert RingIndex(|s|, r, Pred(k, |s|)) == Pred(RingIndex(|s|, r, k), |s|);
    }
  }

  /** Taking a node out of the ring takes it out of the rotated ring. */
  lemma RotatedWithout<T>(s: seq<T>, r: nat, k: nat)
    requires r <= |s| && k < |s|
    ensures var j, r' := RingIndex(|s|, r, k), if RingIndex(|s|, r, k) < r then r - 1 else r;
            r' <= |s| - 1 && Rotated(Without(s, j), r') == Without(Rotated(s, r), k)
  {
    var j := RingIndex(|s|, r, k);
    if j < r {
      assert Without(s, j)[r - 1..] == s[r..] && Without(s, j)[..r - 1] == s[..j] + s[j + 1..r];
    } else {
      assert Without(s, j)[r..] == s[r..j] + s[j + 1..] && Without(s, j)[..r] == s[..r];
    }
  }

  ghost predicate AtFront(x: CListNode, ring: seq<CListNode>) {
    ring != [] && x == ring[0]
  }

  ghost predicate AtEnd(x: CListNode, ring: seq<CListNode>) {
    ring != [] && x == ring[|ring| - 1]
  }

  lemma AloneIsRing(x: CListNode)
    requires x.next == x && x.prev == x
    ensures Linked([] + [x]) && Distinct([] + [x])
  {
  }

  lemma LinksOf(s: seq<CListNode>)
    requires Linked(s) && Distinct(s) && s != []
    ensures forall i {:trigger s[i].next} :: 0 <= i < |s| ==> s[i].next == s[Succ(i, |s|)]
    ensures forall i {:trigger s[i].prev} :: 0 <= i < |s| ==> s[i].prev == s[Pred(i, |s|)]
    ensures forall i :: 0 <= i < |s| - 1 ==> s[i] != s[|s| - 1]
    ensures forall i :: 0 < i < |s| ==> s[i] != s[0]
  {
  }

  lemma AtTheEnd(s: seq<CListNode>, x: CListNode)
    requires s != []
    ensures s[..|s|] + [x] + s[|s|..] == s + [x] && Rotated(s + [x], |s|) == [x] + s
  {
  }

  /** The nodes of s that are in keep, in the order of s. */
  function Only(s: seq<CListNode>, keep: seq<CListNode>): seq<CListNode> {
    if s == [] then []
    else
      var n := |s| - 1;
      Only(s[..n], keep) + if s[n] in keep then [s[n]] else []
  }

  lemma {:induction false} OnlyHas(s: seq<CListNode>, keep: seq<CListNode>, x: CListNode)
    ensures x in Only(s, keep) <==> x in s && x in keep
  {
    if s != [] {
      OnlyHas(s[..|s| - 1], keep, x);
      assert s == s[..|s| - 1] + [s[|s| - 1]];
    }
  }

  /** What stays, stays in its order. */
  lemma {:induction false} OnlyKeepsOrder(s: seq<CListNode>, keep: seq<CListNode>, i: nat, j: nat) returns (a: nat, b: nat)
    requires i < j < |Only(s, keep)|
    ensures a < b < |s| && s[a] == Only(s, keep)[i] && s[b] == Only(s, keep)[j]
  {
    var n := |s| - 1;
    var front := Only(s[..n], keep);
    if j < |front| {
      a, b := OnlyKeepsOrder(s[..n], keep, i, j);
    } else {
      OnlyHas(s[..n], keep, front[i]);
      a :| 0 <= a < n && s[..n][a] == front[i];
      b := n;
    }
  }

  /** The order of a traversal: from node k on round to the one before it, and backwards from that one round to node k. */
  lemma OrderOfTraversal<T>(s: seq<T>, k: nat, i: nat)
    requires k < |s| && i < |s|
    ensures |Rotated(s, k)| == |s| && Rotated(s, k)[i] == s[(k + i) % |s|]
    ensures |Reverse(Rotated(s, k))| == |s| && Reverse(Rotated(s, k))[i] == s[(k + |s| - 1 - i) % |s|]
  {
    RoundTheRing(k, i, |s|);
    RoundTheRing(k, |s| - 1 - i, |s|);
    ReverseAt(Rotated(s, k), i);
  }

  lemma RoundTheRing(k: nat, i: nat, n: nat)
    requires k < n && i < n
    ensures (k + i) % n == if k + i < n then k + i else k + i - n
  {
    if k + i >= n {
      Once(k + i - n, n);
    } else {
      Never(k + i, n);
    }
  }

  lemma Once(x: nat, n: nat)
    requires x < n
    ensures (x + n) % n == x
  {
  }

  lemma Never(x: nat, n: nat)
    requires x < n
    ensures x % n == x
  {
  }

  lemma OnlyInside(s: seq<CListNode>, keep: seq<CListNode>)
    ensures forall x :: x in Only(s, keep) ==> x in s
  {
    forall x | x in Only(s, keep)
      ensures x in s
    {
      OnlyHas(s, keep, x);
    }
  }

  lemma {:induction false} OnlySame(s: seq<CListNode>, a: seq<CListNode>, b: seq<CListNode>)
    requires forall x :: x in s ==> (x in a <==> x in b)
    ensures Only(s, a) == Only(s, b)
  {
    if s != [] {
      OnlySame(s[..|s| - 1], a, b);
    }
  }

  lemma {:induction false} OnlyAll(s: seq<CListNode>, keep: seq<CListNode>)
    requires forall x :: x in s ==> x in keep
    ensures Only(s, keep) == s
  {
    if s != [] {
      OnlyAll(s[..|s| - 1], keep);
      assert s == s[..|s| - 1] + [s[|s| - 1]];
    }
  }

  /** The ring to begin with. */
  lemma RingStart(s: seq<CListNode>, k: nat)
    requires k < |s|
    ensures |Rotated(s, k)| == |s| && Rotated(s, k)[0] == s[k] && Only(s, Rotated(s, k)) == s
  {
    RotatedAt(s, k);
    OnlyAll(s, Rotated(s, k));
  }

  /** Giving up one more node takes it out. */
  lemma {:induction false} OnlyWithout(s: seq<CListNode>, a: seq<CListNode>, b: seq<CListNode>, x: CListNode, j: nat)
    requires Distinct(s) && forall y :: y in b <==> y in a && y != x
    requires j < |Only(s, a)| && Only(s, a)[j] == x
    ensures Only(s, b) == Without(Only(s, a), j)
  {
    var n := |s| - 1;
    var front := Only(s[..n], a);
    OnlyHas(s, a, x);
    assert s[n] !in s[..n];
    if s[n] == x {
      assert forall y :: y in s[..n] ==> (y in a <==> y in b);
      OnlySame(s[..n], a, b);
      assert Only(s, a) == front + [x];
      OnlyHas(s[..n], a, x);
      assert j == |front|;
      assert Without(front + [x], |front|) == front;
    } else {
      assert j < |front|;
      OnlyWithout(s[..n], a, b, x, j);
      if s[n] in a {
        assert Without(front + [s[n]], j) == Without(front, j) + [s[n]];
      }
    }
  }

  lemma WithoutHas(s: seq<CListNode>, k: nat)
    requires Distinct(s) && k < |s|
    ensures forall y :: y in Without(s, k) <==> y in s && y != s[k]
  {
    assert s == s[..k] + [s[k]] + s[k + 1..];
  }

  lemma DistinctWithout(s: seq<CListNode>, k: nat)
    requires Distinct(s) && k < |s|
    ensures Distinct(Without(s, k))
  {
    WithoutAt(s, k);
  }

  /** The nodes elsewhere are other nodes. */
  lemma OnlyThere(s: seq<CListNode>, i: nat)
    requires Distinct(s) && i < |s|
    ensures forall j :: 0 <= j < |s| && j != i ==> s[j] != s[i]
  {
  }

  lemma WithoutOnly(s: seq<CListNode>)
    requires |s| == 1
    ensures Without(s, 0) == [] && Linked(Without(s, 0))
  {
  }

  lemma WithoutEnds<T>(s: seq<T>, k: nat)
    requires k < |s| && 1 < |s|
    ensures |Without(s, k)| == |s| - 1
    ensures Without(s, k)[0] == if k == 0 then s[1] else s[0]
    ensures Without(s, k)[|s| - 2] == if k == |s| - 1 then s[|s| - 2] else s[|s| - 1]
  {
  }

  lemma OnlyOfLeftStep(s: seq<CListNode>, fn: Callback, i: nat)
    requires Distinct(s) && i < |s| && Only(s, Left(s, fn, i)) == Left(s, fn, i) && Distinct(Left(s, fn, i))
    ensures Only(s, Left(s, fn, i + 1)) == Left(s, fn, i + 1) && Distinct(Left(s, fn, i + 1))
  {
    hide Left, Kept, Only, Distinct, Without;
    var a, k := Left(s, fn, i), |Kept(s, fn, i)|;
    LeftStep(s, fn, i);
    if fn(i, s[i]).unlink {
      DistinctWithout(a, k);
      WithoutHas(a, k);
      OnlyWithout(s, a, Without(a, k), a[k], k);
    }
  }

  /** A traversal from the head leaves what it leaves of the order of the list itself. */
  lemma {:induction false} OnlyOfLeft(s: seq<CListNode>, fn: Callback, i: nat)
    requires Distinct(s) && i <= |s|
    ensures Only(s, Left(s, fn, i)) == Left(s, fn, i) && Distinct(Left(s, fn, i))
  {
    hide Left, Kept, Only, Distinct;
    if i == 0 {
      LeftEnds(s, fn);
      OnlyAll(s, s);
    } else {
      OnlyOfLeft(s, fn, i - 1);
      OnlyOfLeftStep(s, fn, i - 1);
    }
  }

  lemma WithoutAt<T>(s: seq<T>, k: nat)
    requires k < |s|
    ensures forall i :: 0 <= i < |s| - 1 ==> Without(s, k)[i] == s[if i < k then i else i + 1]
  {
  }

  class CList {
    var head: CListNode?
    ghost var nodes: seq<CListNode>

    ghost predicate Valid()
      reads this, nodes
    {
      && (head == null <==> nodes == [])
      && (nodes != [] ==> head == nodes[0])
      && Distinct(nodes)
      && Linked(nodes)
    }

    constructor ()
      ensures Valid() && nodes == []
    {
      head, nodes := null, [];
    }

    method InsertFront(node: CListNode)
      requires Valid() && node !in nodes && node.IsSingle()
      modifies this, node, if head == null then {} else {head, head.prev}
      ensures Valid() && nodes == [node] + old(nodes)
    {
      hide Rotated, Linked, Distinct;
      ghost var s := nodes;
      if head == null {
        AloneIsRing(node);
        assert [node] + s == [] + [node];
      } else {
        var last := head.prev;
        LastOf();
        LinksOf(s);
        node.next := head;
        node.prev := last;
        last.next := node;
        head.prev := node;
        forall j {:trigger s[j].next} | 0 <= j < |s|
          ensures s[j].next == if j == |s| - 1 then node else s[Succ(j, |s|)]
        {
          assert old(s[j].next) == s[Succ(j, |s|)];
        }
        forall j {:trigger s[j].prev} | 0 <= j < |s|
          ensures s[j].prev == if j == 0 then node else s[Pred(j, |s|)]
        {
          assert old(s[j].prev) == s[Pred(j, |s|)];
        }
        LinkedWith(s, |s| - 1, node);
        DistinctWith(s, |s| - 1, node);
        AtTheEnd(s, node);
        RotatedIsLinked(s + [node], |s|);
        RotatedIsDistinct(s + [node], |s|);
      }
      head := node;
      nodes := [node] + s;
    }

    method InsertBack(node: CListNode)
      requires Valid() && node !in nodes && node.IsSingle()
      modifies this, node, if head == null then {} else {head, head.prev}
      ensures Valid() && nodes == old(nodes) + [node]
    {
      hide Rotated, Linked, Distinct;
      ghost var s := nodes;
      if head == null {
        head := node;
        AloneIsRing(node);
      } else {
        var last := head.prev;
        LastOf();
        LinksOf(s);
        node.next := head;
        head.prev := node;
        node.prev := last;
        last.next := node;
        forall j {:trigger s[j].next} | 0 <= j < |s|
          ensures s[j].next == if j == |s| - 1 then node else s[Succ(j, |s|)]
        {
          assert old(s[j].next) == s[Succ(j, |s|)];
        }
        forall j {:trigger s[j].prev} | 0 <= j < |s|
          ensures s[j].prev == if j == 0 then node else s[Pred(j, |s|)]
        {
          assert old(s[j].prev) == s[Pred(j, |s|)];
        }
        LinkedWith(s, |s| - 1, node);
        DistinctWith(s, |s| - 1, node);
        AtTheEnd(s, node);
      }
      nodes := s + [node];
    }

    /** Insert after behind start; unlike the other insertions this one does not ask that after be single. */
    method InsertAfter(start: CListNode, after: CListNode, ghost k: nat)
      requires Valid() && k < |nodes| && nodes[k] == start && after !in nodes
      modifies this`nodes, after, start, start.next
      ensures Valid() && nodes == old(nodes)[..k + 1] + [after] + old(nodes)[k + 1..]
    {
      ghost var s := nodes;
      assert start.next == s[Succ(k, |s|)];
      after.next := start.next;
      start.next := after;
      after.prev := start;
      after.next.prev := after;
      LinkedWith(s, k, after);
      DistinctWith(s, k, after);
      hide Linked, Distinct;
      nodes := s[..k + 1] + [after] + s[k + 1..];
    }

    method Remove(node: CListNode, ghost k: nat)
      requires Valid() && k < |nodes| && nodes[k] == node
      modifies this, node, node.next, node.prev
      ensures Valid() && nodes == Without(old(nodes), k)
      ensures node.IsSingle()
    {
      hide Linked, Distinct, Without;
      ghost var s := nodes;
      ghost var p, q := Pred(k, |s|), Succ(k, |s|);
      NextOf(k);
      LinksOf(s);
      OnlyThere(s, k);
      OnlyThere(s, p);
      OnlyThere(s, q);
      DistinctWithout(s, k);
      if node.next == node {
        head := null;
        WithoutOnly(s);
      } else if head == node {
        head.prev.next := node.next;
        head := node.next;
        head.prev := node.prev;
      } else {
        node.next.prev := node.prev;
        node.prev.next := node.next;
      }
      node.InitNode();
      if |s| > 1 {
        WithoutEnds(s, k);
        forall j {:trigger s[j].next} | 0 <= j < |s| && j != k
          ensures s[j].next == if j == p then s[q] else s[Succ(j, |s|)]
        {
          assert old(s[j].next) == s[Succ(j, |s|)];
        }
        forall j {:trigger s[j].prev} | 0 <= j < |s| && j != k
          ensures s[j].prev == if j == q then s[p] else s[Pred(j, |s|)]
        {
          assert old(s[j].prev) == s[Pred(j, |s|)];
        }
        LinkedWithout(s, k);
      }
      nodes := Without(s, k);
    }

    method Pop() returns (ret: CListNode?)
      requires Valid()
      modifies this, nodes
      ensures Valid()
      ensures old(nodes) == [] ==> ret == null && nodes == []
      ensures old(nodes) != [] ==> ret == old(nodes)[0] && ret.IsSingle() && nodes == old(nodes)[1..]
    {
      ret := head;
      if ret != null {
        Remove(ret, 0);
      }
    }

    lemma LastOf()
      requires Valid() && nodes != []
      ensures head == nodes[0] && head.prev == nodes[|nodes| - 1] && nodes[|nodes| - 1].next == head
    {
    }

    lemma NextOf(k: nat)
      requires Valid() && k < |nodes|
      ensures nodes[k].next == nodes[Succ(k, |nodes|)] && nodes[k].prev == nodes[Pred(k, |nodes|)]
      ensures nodes[k].next == nodes[0] <==> k + 1 == |nodes|
      ensures nodes[k].next == nodes[k] <==> |nodes| == 1
      ensures nodes[k] == nodes[0] <==> k == 0
    {
    }

    /** One call of the callback. */
    method Visit(node: CListNode, fn: Callback, i: nat, ghost k: nat) returns (proceed: bool)
      requires Valid() && k < |nodes| && nodes[k] == node
      modifies this, node, node.next, node.prev
      ensures Valid() && proceed == fn(i, node).proceed
      ensures fn(i, node).unlink ==> nodes == Without(old(nodes), k) && node.IsSingle()
      ensures !fn(i, node).unlink ==> nodes == old(nodes) && node.next == old(node.next) && node.prev == old(node.prev)
    {
      hide Linked, Distinct;
      var action := fn(i, node);
      if action.unlink {
        Remove(node, k);
      }
      proceed := action.proceed;
    }

    /** The list is what is left of the order s, and read from node r on it is this ring. */
    ghost predicate IsRing(ring: seq<CListNode>, r: nat, s: seq<CListNode>)
      reads this, nodes
    {
      Valid() && Distinct(s) && r <= |nodes| && Rotated(nodes, r) == ring && nodes == Only(s, ring)
    }

    /** One call of the callback, seen from a rotated ring: what it leaves of the ring, and of the order s of the list. */
    method VisitRing(node: CListNode, fn: Callback, i: nat, ghost ring: seq<CListNode>, ghost k: nat, ghost r: nat,
                     ghost s: seq<CListNode>)
      returns (proceed: bool, ghost r': nat)
      requires IsRing(ring, r, s) && k < |ring| && ring[k] == node
      modifies this, node, node.next, node.prev
      ensures IsRing(if fn(i, node).unlink then Without(ring, k) else ring, r', s) && proceed == fn(i, node).proceed
      ensures fn(i, node).unlink ==> node.IsSingle()
      ensures !fn(i, node).unlink ==> node.next == old(node.next) && node.prev == old(node.prev)
    {
      hide Linked, Rotated, Only;
      RotatedAt(nodes, r);
      ghost var j := RingIndex(|nodes|, r, k);
      RotatedWithout(nodes, r, k);
      RotatedIsDistinct(nodes, r);
      WithoutHas(ring, k);
      OnlyWithout(s, ring, Without(ring, k), node, j);
      hide Distinct;
      r' := if fn(i, node).unlink && j < r then r - 1 else r;
      proceed := Visit(node, fn, i, j);
    }

    lemma RingOf(ring: seq<CListNode>, r: nat, s: seq<CListNode>, k: nat)
      requires IsRing(ring, r, s) && k < |ring|
      ensures ring[k] in s && ring[Succ(k, |ring|)] in s && ring[Pred(k, |ring|)] in s
      ensures ring[k].next == ring[Succ(k, |ring|)] && ring[k].prev == ring[Pred(k, |ring|)]
      ensures forall j :: 0 <= j < |ring| && ring[j] == ring[k] ==> j == k
    {
      hide Only;
      RotatedAt(nodes, r);
      RotatedIsLinked(nodes, r);
      RotatedIsDistinct(nodes, r);
      OnlyInside(s, ring);
      assert ring[Succ(k, |ring|)] in nodes && ring[Pred(k, |ring|)] in nodes;
    }

    lemma RingMeans(ring: seq<CListNode>, r: nat, s: seq<CListNode>)
      requires IsRing(ring, r, s)
      ensures Valid() && nodes == Only(s, ring)
    {
    }

    lemma RingBegins(k: nat)
      requires Valid() && k < |nodes|
      ensures |Rotated(nodes, k)| == |nodes| && Rotated(nodes, k)[0] == nodes[k] && IsRing(Rotated(nodes, k), k, nodes)
    {
      hide Linked, Distinct;
      RingStart(nodes, k);
    }

    /** One turn of the loop in `CF_CList_Traverse`: the node to visit next, and the new first node in case it is gone. */
    method VisitForth(node: CListNode, first: CListNode, fn: Callback, i: nat, ghost order: seq<CListNode>, ghost r: nat,
                      ghost s: seq<CListNode>)
      returns (proceed: bool, nodeNext: CListNode, newFirst: CListNode, last: bool, ghost r': nat)
      requires i < |order| && IsRing(Left(order, fn, i), r, s)
      requires node == order[i] && AtFront(first, Left(order, fn, i))
      modifies this, s
      ensures IsRing(Left(order, fn, i + 1), r', s)
      ensures proceed == fn(i, node).proceed
      ensures last <==> i + 1 == |order|
      ensures i + 1 < |order| ==> nodeNext == order[i + 1] && AtFront(newFirst, Left(order, fn, i + 1))
    {
      hide Left, Kept, IsRing;
      ghost var ring, k := Left(order, fn, i), |Kept(order, fn, i)|;
      LeftStep(order, fn, i);
      RingOf(ring, r, s, k);
      RingOf(ring, r, s, 0);
      if 1 < |ring| {
        WithoutEnds(ring, k);
      }
      hide Without;
      nodeNext := node.next;
      last := nodeNext == first;
      newFirst := first;
      proceed, r' := VisitRing(node, fn, i, ring, k, r, s);
      if first == node && node.next != nodeNext {
        newFirst := nodeNext;
      }
    }

    /** `CF_CList_Traverse` from any node of the list.  The nodes visited are a prefix of the ring read from there, all of it if
        the callback always proceeds, although the callback may unlink the node it is given. */
    method Traverse(start: CListNode?, fn: Callback, ghost k: nat) returns (visited: seq<CListNode>)
      requires Valid() && (start != null ==> k < |nodes| && nodes[k] == start)
      modifies this, nodes
      ensures Valid()
      ensures start == null ==> visited == [] && nodes == old(nodes)
      ensures start != null ==>
        && visited == Rotated(old(nodes), k)[..Calls(Rotated(old(nodes), k), fn, 0)]
        && nodes == Only(old(nodes), Left(Rotated(old(nodes), k), fn, |visited|))
    {
      hide Left, Kept, Calls, Linked, Distinct, Rotated, Only, IsRing;
      visited := [];
      if start != null {
        ghost var s, order := nodes, Rotated(nodes, k);
        RingBegins(k);
        LeftEnds(order, fn);
        CallsStep(order, fn, 0);
        var first: CListNode := start;
        var node: CListNode := start;
        var last := false;
        ghost var r: nat := k;
        while !last
          invariant |visited| <= |order| && visited == order[..|visited|]
          invariant IsRing(Left(order, fn, |visited|), r, s)
          invariant Calls(order, fn, 0) == Calls(order, fn, |visited|)
          invariant last <==> |visited| == |order|
          invariant !last ==> node == order[|visited|] && AtFront(first, Left(order, fn, |visited|))
          modifies this, s
          decreases |order| - |visited|
        {
          CallsStep(order, fn, |visited|);
          var proceed, nodeNext, newFirst, isLast, r' := VisitForth(node, first, fn, |visited|, order, r, s);
          visited, last, r := visited + [node], isLast, r';
          if !proceed {
            break;
          }
          node, first := nodeNext, newFirst;
          CallsStep(order, fn, |visited|);
        }
        RingMeans(Left(order, fn, |visited|), r, s);
      }
    }

    /** One turn of the loop in `CF_CList_Traverse_R`: the node to visit next, and the new end in case it is gone. */
    method VisitBack(node: CListNode, end: CListNode, fn: Callback, i: nat, ghost order: seq<CListNode>, ghost r: nat,
                     ghost s: seq<CListNode>)
      returns (proceed: bool, nodeNext: CListNode, newEnd: CListNode, last: bool, ghost r': nat)
      requires i < |order| && IsRing(LeftBack(order, fn, i), r, s)
      requires node == Reverse(order)[i] && AtEnd(end, LeftBack(order, fn, i))
      modifies this, s
      ensures IsRing(LeftBack(order, fn, i + 1), r', s) && proceed == fn(i, node).proceed
      ensures last <==> i + 1 == |order|
      ensures i + 1 < |order| ==> nodeNext == Reverse(order)[i + 1] && AtEnd(newEnd, LeftBack(order, fn, i + 1))
    {
      hide LeftBack, KeptBack, IsRing;
      ghost var ring, k := LeftBack(order, fn, i), |order| - 1 - i;
      LeftBackStep(order, fn, i);
      ReverseAt(order, i);
      if i + 1 < |order| {
        ReverseAt(order, i + 1);
      }
      hide Reverse;
      RingOf(ring, r, s, k);
      RingOf(ring, r, s, |ring| - 1);
      if 1 < |ring| {
        WithoutEnds(ring, k);
      }
      hide Without;
      nodeNext := node.prev;
      last := nodeNext == end;
      newEnd := end;
      proceed, r' := VisitRing(node, fn, i, ring, k, r, s);
      if end == node && node.prev != nodeNext {
        newEnd := nodeNext;
      }
    }

    /** `CF_CList_Traverse_R`: from the node before the given one back to the given one. */
    method TraverseR(end: CListNode?, fn: Callback, ghost k: nat) returns (visited: seq<CListNode>)
      requires Valid() && (end != null ==> k < |nodes| && nodes[k] == end)
      modifies this, nodes
      ensures Valid()
      ensures end == null ==> visited == [] && nodes == old(nodes)
      ensures end != null ==>
        var order := Reverse(Rotated(old(nodes), k));
        visited == order[..Calls(order, fn, 0)] && nodes == Only(old(nodes), Left(order, fn, |visited|))
    {
      hide Left, LeftBack, Linked, Distinct, Rotated, Only, Calls, Reverse;
      if end == null {
        visited := [];
      } else {
        ghost var s, ring := nodes, Rotated(nodes, k);
        RingBegins(k);
        RingOf(ring, k, s, 0);
        visited := WalkBack(end.prev, fn, k);
        LeftBackIsLeft(ring, fn, |visited|);
        ReverseHas(Left(Reverse(ring), fn, |visited|));
        OnlySame(s, LeftBack(ring, fn, |visited|), Left(Reverse(ring), fn, |visited|));
      }
    }

    method WalkBack(start: CListNode, fn: Callback, ghost k: nat) returns (visited: seq<CListNode>)
      requires Valid() && k < |nodes| && AtEnd(start, Rotated(nodes, k))
      modifies this, nodes
      ensures Valid() && |visited| <= |Rotated(old(nodes), k)|
      ensures visited == Reverse(Rotated(old(nodes), k))[..Calls(Reverse(Rotated(old(nodes), k)), fn, 0)]
      ensures nodes == Only(old(nodes), LeftBack(Rotated(old(nodes), k), fn, |visited|))
    {
      hide LeftBack, KeptBack, Kept, Left, Calls, Linked, Distinct, Reverse, Rotated, Only, IsRing;
      ghost var s, ring := nodes, Rotated(nodes, k);
      ghost var order := Reverse(ring);
      RingBegins(k);
      visited := [];
      ReverseAt(ring, 0);
      LeftBackEnds(ring, fn);
      CallsStep(order, fn, 0);
      var node := start;
      var end := node;
      var last := false;
      ghost var r: nat := k;
      while !last
        invariant |visited| <= |order| == |ring| && visited == order[..|visited|]
        invariant IsRing(LeftBack(ring, fn, |visited|), r, s)
        invariant Calls(order, fn, 0) == Calls(order, fn, |visited|)
        invariant last <==> |visited| == |order|
        invariant !last ==> node == order[|visited|] && AtEnd(end, LeftBack(ring, fn, |visited|))
        modifies this, s
        decreases |order| - |visited|
      {
        CallsStep(order, fn, |visited|);
        var proceed, nodeNext, newEnd, isLast, r' := VisitBack(node, end, fn, |visited|, ring, r, s);
        visited, last, r := visited + [node], isLast, r';
        if !proceed {
          break;
        }
        node, end := nodeNext, newEnd;
        CallsStep(order, fn, |visited|);
      }
      RingMeans(LeftBack(ring, fn, |visited|), r, s);
    }
  }
}
