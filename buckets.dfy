/**
 * The tag and category indexes of a post index: a map from each label to the list
 * of post positions filed under it, grown by `entry(label).or_insert_with(Vec::new)
 * .push(position)` once per label a post lists.
 */
module Buckets {

  /** A label index: label to post positions, in insertion order. */
  type Buckets = map<string, seq<nat>>

  /** How many times `t` occurs in `labels`. */
  function Count(labels: seq<string>, t: string): (r: nat)
    ensures r <= |labels|
    ensures r > 0 <==> t in labels
  {
    if labels == [] then 0
    else
      var last := labels[|labels| - 1];
      assert labels == labels[..|labels| - 1] + [last];
      Count(labels[..|labels| - 1], t) + (if last == t then 1 else 0)
  }

  /** `n` copies of `x`. */
  function Repeat(x: nat, n: nat): (r: seq<nat>)
    ensures |r| == n
    ensures forall i :: 0 <= i < n ==> r[i] == x
  {
    if n == 0 then [] else Repeat(x, n - 1) + [x]
  }

  /** `xs` never decreases. */
  predicate NonDecreasing(xs: seq<nat>) {
    forall i, j :: 0 <= i < j < |xs| ==> xs[i] <= xs[j]
  }

  /**
   * The bucket of label `t` once the posts whose label lists are `lists` have been
   * filed in order: post `p` appears once for every time `t` occurs in `lists[p]`,
   * posts in increasing position.
   */
  function Positions(lists: seq<seq<string>>, t: string): (r: seq<nat>)
    ensures forall i :: 0 <= i < |r| ==> r[i] < |lists|
    ensures forall p :: 0 <= p < |lists| ==> (p in r <==> t in lists[p])
    ensures NonDecreasing(r)
  {
    if lists == [] then []
    else
      var n := |lists| - 1;
      var before := Positions(lists[..n], t);
      var r := before + Repeat(n, Count(lists[n], t));
      assert forall p :: 0 <= p < n ==> lists[..n][p] == lists[p];
      assert forall i :: 0 <= i < |before| ==> r[i] == before[i];
      r
  }

  /** Filing one more post appends its position once per occurrence of the label. */
  lemma PositionsSnoc(lists: seq<seq<string>>, labels: seq<string>, t: string)
    ensures Positions(lists + [labels], t) == Positions(lists, t) + Repeat(|lists|, Count(labels, t))
  {
    assert (lists + [labels])[..|lists|] == lists;
  }

  /** `.get(label)` followed by `unwrap_or_default`: an absent label has an empty bucket. */
  function Get(m: Buckets, t: string): (r: seq<nat>)
    ensures t !in m ==> r == []
    ensures t in m ==> r == m[t]
  {
    if t in m then m[t] else []
  }

  /** `m` is exactly the index of `lists`: every label's bucket, and no empty bucket. */
  ghost predicate Represents(m: Buckets, lists: seq<seq<string>>) {
    (forall t :: Get(m, t) == Positions(lists, t))
    && (forall t :: t in m ==> m[t] != [])
  }

  /**
   * `m'` is `m` after filing position `pos` under each of the labels `done`: every
   * bucket has grown by one entry per occurrence, and only those labels gained a
   * bucket, never an empty one.
   */
  ghost predicate Filed(m: Buckets, m': Buckets, done: seq<string>, pos: nat) {
    (forall t :: Get(m', t) == Get(m, t) + Repeat(pos, Count(done, t)))
    && (forall t :: t in m' <==> t in m || t in done)
    && (forall t :: t in m' && t !in m ==> m'[t] != [])
  }

  /**
   * The loop that files one post: for each label in order, the label's bucket is
   * created empty if missing and the position is appended to it.
   */
  method AddToBuckets(m: Buckets, labels: seq<string>, pos: nat) returns (m': Buckets)
    ensures forall t :: Get(m', t) == Get(m, t) + Repeat(pos, Count(labels, t))
    ensures forall t :: t in m' <==> t in m || t in labels
    ensures forall t :: t in m' && t !in m ==> m'[t] != []
  {
    m' := m;
    var i := 0;
    assert labels[..0] == [];
    while i < |labels|
      invariant 0 <= i <= |labels|
      invariant Filed(m, m', labels[..i], pos)
    {
      var name := labels[i];
      FileStep(m, m', labels[..i], name, pos);
      TakeOneMore(labels, i);
      m' := m'[name := Get(m', name) + [pos]];
      i := i + 1;
    }
    assert labels[..i] == labels;
  }

  lemma TakeOneMore(labels: seq<string>, i: nat)
    requires i < |labels|
    ensures labels[..i + 1] == labels[..i] + [labels[i]]
  {
  }

  /** One turn of the filing loop keeps its invariant. */
  lemma FileStep(m: Buckets, prev: Buckets, done: seq<string>, name: string, pos: nat)
    requires Filed(m, prev, done, pos)
    ensures Filed(m, prev[name := Get(prev, name) + [pos]], done + [name], pos)
  {
    FileCounts(m, prev, done, name, pos);
    FileKeys(m, prev, done, name, pos, Get(prev, name) + [pos]);
  }

  /** Appending `pos` to one label's bucket counts one more occurrence of that label. */
  lemma FileOne(m: Buckets, prev: Buckets, done: seq<string>, name: string, pos: nat, t: string)
    requires Get(prev, t) == Get(m, t) + Repeat(pos, Count(done, t))
    ensures Get(prev[name := Get(prev, name) + [pos]], t) == Get(m, t) + Repeat(pos, Count(done + [name], t))
  {
    CountSnoc(done, name, t);
    if t == name {
      assert Repeat(pos, Count(done, t) + 1) == Repeat(pos, Count(done, t)) + [pos];
    }
  }

  /** One turn of the filing loop keeps every bucket equal to its count of the labels so far. */
  lemma FileCounts(m: Buckets, prev: Buckets, done: seq<string>, name: string, pos: nat)
    requires Filed(m, prev, done, pos)
    ensures forall t :: Get(prev[name := Get(prev, name) + [pos]], t) == Get(m, t) + Repeat(pos, Count(done + [name], t))
  {
    forall t
      ensures Get(prev[name := Get(prev, name) + [pos]], t) == Get(m, t) + Repeat(pos, Count(done + [name], t))
    {
      FileOne(m, prev, done, name, pos, t);
    }
  }

  /** One turn of the filing loop creates a bucket only for its label, and never an empty one. */
  lemma FileKeys(m: Buckets, prev: Buckets, done: seq<string>, name: string, pos: nat, bucket: seq<nat>)
    requires Filed(m, prev, done, pos)
    requires bucket != []
    ensures forall t :: t in prev[name := bucket] <==> t in m || t in done + [name]
    ensures forall t :: t in prev[name := bucket] && t !in m ==> prev[name := bucket][t] != []
  {
    assert forall t :: t in done + [name] <==> t in done || t == name;
  }

  /** Every position an exact label index holds names one of the filed posts. */
  lemma RepresentsInRange(m: Buckets, lists: seq<seq<string>>)
    requires Represents(m, lists)
    ensures forall t, i :: t in m && 0 <= i < |m[t]| ==> m[t][i] < |lists|
  {
    forall t | t in m
      ensures forall i :: 0 <= i < |m[t]| ==> m[t][i] < |lists|
    {
      assert Get(m, t) == m[t];
    }
  }

  lemma CountSnoc(labels: seq<string>, x: string, t: string)
    ensures Count(labels + [x], t) == Count(labels, t) + if x == t then 1 else 0
  {
    assert (labels + [x])[..|labels|] == labels;
  }

  lemma {:induction false} EmptyRepresentsNothing()
    ensures Represents(map[], [])
  {
  }

  /** Filing the next post with its labels keeps the index exact. */
  lemma {:induction false} FilingExtends(m: Buckets, m': Buckets, lists: seq<seq<string>>, labels: seq<string>)
    requires Represents(m, lists)
    requires forall t :: Get(m', t) == Get(m, t) + Repeat(|lists|, Count(labels, t))
    requires forall t :: t in m' <==> t in m || t in labels
    requires forall t :: t in m' && t !in m ==> m'[t] != []
    ensures Represents(m', lists + [labels])
  {
    var lists' := lists + [labels];
    assert lists'[..|lists|] == lists;
    forall t
      ensures Get(m', t) == Positions(lists', t)
    {
      PositionsSnoc(lists, labels, t);
    }
    forall t | t in m'
      ensures m'[t] != []
    {
      if t in m {
        assert Get(m, t) == m[t];
      }
    }
  }

  /** A label listed `c` times by a post files that post `c` times under it. */
  lemma {:induction false} PositionsMultiplicity(lists: seq<seq<string>>, t: string, p: nat)
    ensures multiset(Positions(lists, t))[p] == if p < |lists| then Count(lists[p], t) else 0
  {
    if lists != [] {
      var n := |lists| - 1;
      PositionsMultiplicity(lists[..n], t, p);
      RepeatMultiplicity(n, Count(lists[n], t), p);
      var before, added := Positions(lists[..n], t), Repeat(n, Count(lists[n], t));
      assert lists == lists[..n] + [lists[n]];
      PositionsSnoc(lists[..n], lists[n], t);
      assert multiset(before + added) == multiset(before) + multiset(added);
      if p < n {
        assert lists[..n][p] == lists[p];
      }
    }
  }

  lemma {:induction false} RepeatMultiplicity(x: nat, n: nat, p: nat)
    ensures multiset(Repeat(x, n))[p] == if p == x then n else 0
  {
    if n > 0 {
      RepeatMultiplicity(x, n - 1, p);
    }
  }
}
