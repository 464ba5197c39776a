/** src/buf_cache.c: `binit`, which threads every cache buffer onto the
  * circular doubly-linked list of hash bucket 0. The buffers and the bucket
  * heads live in one arena of nodes: buffer b is node b, the head of bucket k
  * is node nbuf + k, and a `prev`/`next` pointer is a node index. */
module BufCache {

  /** The head of bucket 0's list. */
  function Head0(nbuf: nat): nat { nbuf }

  /** A node whose links are set once `pushed` buffers are on bucket 0:
    * every head, and the buffers pushed so far. */
  predicate Linked(nbuf: nat, nhash: nat, pushed: nat, x: nat)
  {
    x < pushed || nbuf <= x < nbuf + nhash
  }

  /** `next` of node x after buffers 0 .. pushed - 1 were pushed, in that
    * order, at the front of bucket 0: each buffer points at the one pushed
    * before it, buffer 0 back at the head, the head at the last one pushed. */
  function NextAfter(nbuf: nat, pushed: nat, x: nat): nat
  {
    if x >= nbuf then
      if x == Head0(nbuf) && pushed > 0 then pushed - 1 else x
    else if x == 0 then Head0(nbuf)
    else x - 1
  }

  /** `prev` of node x after buffers 0 .. pushed - 1 were pushed. */
  function PrevAfter(nbuf: nat, pushed: nat, x: nat): nat
  {
    if x >= nbuf then
      if x == Head0(nbuf) && pushed > 0 then 0 else x
    else if x + 1 == pushed then Head0(nbuf)
    else x + 1
  }

  /** The node reached from x by following `next` k times, on the lists
    * binit leaves behind. */
  function Follow(nbuf: nat, x: nat, k: nat): nat
  {
    if k == 0 then x else NextAfter(nbuf, nbuf, Follow(nbuf, x, k - 1))
  }

  /** The node reached from x by following `prev` k times. */
  function FollowBack(nbuf: nat, x: nat, k: nat): nat
  {
    if k == 0 then x else PrevAfter(nbuf, nbuf, FollowBack(nbuf, x, k - 1))
  }

  /** The buffers met walking bucket 0 from `head.next` until the head. */
  function BucketZero(nbuf: nat): (s: seq<nat>)
    ensures |s| == nbuf
  {
    seq(nbuf, i requires 0 <= i < nbuf => Follow(nbuf, Head0(nbuf), i + 1))
  }

  /** At every stage of binit's second loop the linked nodes form doubly-
    * linked lists: links stay among linked nodes, and `next` and `prev` are
    * inverse to each other. */
  lemma LinksConsistent(nbuf: nat, nhash: nat, pushed: nat, x: nat)
    requires 0 < nhash && pushed <= nbuf && Linked(nbuf, nhash, pushed, x)
    ensures Linked(nbuf, nhash, pushed, NextAfter(nbuf, pushed, x))
    ensures Linked(nbuf, nhash, pushed, PrevAfter(nbuf, pushed, x))
    ensures PrevAfter(nbuf, pushed, NextAfter(nbuf, pushed, x)) == x
    ensures NextAfter(nbuf, pushed, PrevAfter(nbuf, pushed, x)) == x
  {
  }

  /** Following `next` from bucket 0's head meets buf[nbuf - 1] first and
    * buf[0] last, then the head again. */
  lemma {:induction false} FollowFromHead(nbuf: nat, i: nat)
    requires i <= nbuf
    ensures Follow(nbuf, Head0(nbuf), i) == if i == 0 then Head0(nbuf) else nbuf - i
  {
    if i > 0 {
      FollowFromHead(nbuf, i - 1);
    }
  }

  /** Following `prev` from bucket 0's head meets buf[0] first and
    * buf[nbuf - 1] last. */
  lemma {:induction false} FollowBackFromHead(nbuf: nat, i: nat)
    requires i <= nbuf
    ensures FollowBack(nbuf, Head0(nbuf), i) == if i == 0 then Head0(nbuf) else i - 1
  {
    if i > 0 {
      FollowBackFromHead(nbuf, i - 1);
    }
  }

  /** Bucket 0 holds buf[nbuf - 1] .. buf[0] in that order, each buffer exactly
    * once, and the walk closes at the head after nbuf + 1 steps. */
  lemma BucketZeroHoldsAll(nbuf: nat)
    ensures forall i :: 0 <= i < nbuf ==> BucketZero(nbuf)[i] == nbuf - 1 - i
    ensures forall b :: 0 <= b < nbuf ==> multiset(BucketZero(nbuf))[b] == 1
    ensures forall b :: b in BucketZero(nbuf) ==> b < nbuf
    ensures Follow(nbuf, Head0(nbuf), nbuf + 1) == Head0(nbuf)
  {
    var s := BucketZero(nbuf);
    forall i | 0 <= i < nbuf
      ensures s[i] == nbuf - 1 - i
    {
      FollowFromHead(nbuf, i + 1);
    }
    forall b | 0 <= b < nbuf
      ensures multiset(s)[b] == 1
    {
      CountOnce(s, nbuf, b);
    }
    FollowFromHead(nbuf, nbuf);
  }

  /** In a descending run nbuf - 1 .. 0 each value occurs once. */
  lemma {:induction false} CountOnce(s: seq<nat>, n: nat, b: nat)
    requires |s| == n && b < n
    requires forall i :: 0 <= i < n ==> s[i] == n - 1 - i
    ensures multiset(s)[b] == 1
  {
    if n - 1 == b {
      assert s == [b] + s[1..];
      NotIn(s[1..], n - 1, b);
    } else {
      assert s == [n - 1] + s[1..];
      CountOnce(s[1..], n - 1, b);
    }
  }

  /** A descending run below b does not hold b. */
  lemma NotIn(s: seq<nat>, n: nat, b: nat)
    requires |s| == n && n <= b
    requires forall i :: 0 <= i < n ==> s[i] == n - 1 - i
    ensures multiset(s)[b] == 0
  {
    assert b !in s;
  }

  /** `struct bcache`: nbuf = NCACHE_BUF buffers and nhash = BCACHE_HASH_SIZE
    * bucket heads, with their `next` and `prev` pointers. */
  class BufferCache {
    const nbuf: nat
    const nhash: nat
    const next: array<nat>
    const prev: array<nat>

    predicate Valid()
      reads this
    {
      0 < nhash && next != prev
      && next.Length == nbuf + nhash && prev.Length == nbuf + nhash
    }

    /** The static cache; its pointers are not yet meaningful. */
    constructor(nbuf: nat, nhash: nat)
      requires 0 < nhash
      ensures Valid() && this.nbuf == nbuf && this.nhash == nhash
    {
      this.nbuf := nbuf;
      this.nhash := nhash;
      next := new nat[nbuf + nhash](_ => 0);
      prev := new nat[nbuf + nhash](_ => 0);
    }

    /** The links of every node once `pushed` buffers are on bucket 0. */
    ghost predicate LinkedAfter(pushed: nat)
      requires Valid()
      reads this, next, prev
    {
      forall x :: 0 <= x < nbuf + nhash && Linked(nbuf, nhash, pushed, x) ==>
        next[x] == NextAfter(nbuf, pushed, x) && prev[x] == PrevAfter(nbuf, pushed, x)
    }

    /** The arrays' links among the linked nodes are mutually inverse. */
    ghost predicate DoublyLinked(pushed: nat)
      requires Valid()
      reads this, next, prev
    {
      forall x :: 0 <= x < nbuf + nhash && Linked(nbuf, nhash, pushed, x) ==>
        next[x] < nbuf + nhash && prev[x] < nbuf + nhash
        && prev[next[x]] == x && next[prev[x]] == x
    }

    /** Lines 35-39: every bucket head becomes a one-node circle. */
    method InitHeads()
      requires Valid()
      modifies next, prev
      ensures LinkedAfter(0)
      ensures forall x :: 0 <= x < nbuf ==> next[x] == old(next[x]) && prev[x] == old(prev[x])
    {
      var k := 0;
      while k < nhash
        invariant 0 <= k <= nhash
        invariant forall h :: nbuf <= h < nbuf + k ==> next[h] == h && prev[h] == h
        invariant forall x :: 0 <= x < nbuf ==> next[x] == old(next[x]) && prev[x] == old(prev[x])
      {
        prev[nbuf + k] := nbuf + k;
        next[nbuf + k] := nbuf + k;
        k := k + 1;
      }
    }

    /** Lines 43-47: buffer b goes at the front of bucket 0. */
    method PushFront(b: nat)
      requires Valid() && b < nbuf && LinkedAfter(b)
      modifies next, prev
      ensures LinkedAfter(b + 1)
    {
      var head := Head0(nbuf);
      var first := next[head];
      assert first == if b > 0 then b - 1 else head;
      next[b] := first;
      prev[b] := head;
      prev[first] := b;
      next[head] := b;
      forall x | 0 <= x < nbuf + nhash && Linked(nbuf, nhash, b + 1, x)
        ensures next[x] == NextAfter(nbuf, b + 1, x)
      {
        if x != b && x != head {
          assert next[x] == old(next[x]);
        }
      }
      forall x | 0 <= x < nbuf + nhash && Linked(nbuf, nhash, b + 1, x)
        ensures prev[x] == PrevAfter(nbuf, b + 1, x)
      {
        if x != b && x != first {
          assert prev[x] == old(prev[x]);
        }
      }
    }

    /** `binit`: make every bucket head a one-node circle, then push each
      * buffer in turn at the front of bucket 0. */
    method Binit()
      requires Valid()
      modifies next, prev
      ensures forall x :: 0 <= x < nbuf + nhash ==>
        next[x] == NextAfter(nbuf, nbuf, x) && prev[x] == PrevAfter(nbuf, nbuf, x)
      ensures forall h :: nbuf < h < nbuf + nhash ==> next[h] == h && prev[h] == h
      ensures DoublyLinked(nbuf)
    {
      InitHeads();
      Consistent(this, 0);
      var b := 0;
      while b < nbuf
        invariant 0 <= b <= nbuf
        invariant LinkedAfter(b)
        invariant DoublyLinked(b)
      {
        PushFront(b);
        b := b + 1;
        Consistent(this, b);
      }
    }
  }

  /** The loop invariant of lines 42-48: the arrays binit has built so far
    * are doubly-linked. */
  lemma Consistent(c: BufferCache, pushed: nat)
    requires c.Valid() && pushed <= c.nbuf && c.LinkedAfter(pushed)
    ensures c.DoublyLinked(pushed)
  {
    forall x | 0 <= x < c.nbuf + c.nhash && Linked(c.nbuf, c.nhash, pushed, x)
      ensures c.next[x] < c.nbuf + c.nhash && c.prev[x] < c.nbuf + c.nhash
      ensures c.prev[c.next[x]] == x && c.next[c.prev[x]] == x
    {
      LinksConsistent(c.nbuf, c.nhash, pushed, x);
    }
  }
}
