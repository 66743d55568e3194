/**
 * The newest-first ordering of a post index. Both scans collect `(position, date)`
 * pairs in walk order and sort them with the standard library's stable `sort_by`;
 * this module gives the result of that sort as a function and proves that it is a
 * permutation of the positions, ordered by the comparator, and stable.
 */
module DateOrder {
  import opened Wrappers
  import opened Dates

  /** The date a post sorts by; `None` only in the build script, for undated posts. */
  type SortKey = Option<Date>

  /** One collected pair: the post's position and its sort key. */
  datatype Keyed = Keyed(pos: nat, key: SortKey)

  /**
   * The build script's comparator: later dates first, dated posts before undated ones,
   * undated posts all equal. On two dates it is the runtime's `b.cmp(a)`.
   */
  function Compare(a: SortKey, b: SortKey): (r: Ordering)
    ensures r == Equal <==> a == b
    ensures a.Some? && b.Some? ==> r == CmpDate(b.value, a.value)
    ensures a.Some? && b.None? ==> r == Less
    ensures a.None? && b.Some? ==> r == Greater
  {
    match (a, b)
    case (Some(x), Some(y)) => CmpDate(y, x)
    case (Some(_), None) => Less
    case (None, Some(_)) => Greater
    case (None, None) => Equal
  }

  lemma CompareAntisymmetric(a: SortKey, b: SortKey)
    ensures Compare(a, b) == Greater <==> Compare(b, a) == Less
  {
    if a.Some? && b.Some? {
      CmpDateAntisymmetric(a.value, b.value);
    }
  }

  lemma CompareTransitive(a: SortKey, b: SortKey, c: SortKey)
    requires Compare(a, b) != Greater && Compare(b, c) != Greater
    ensures Compare(a, c) != Greater
  {
    if a.Some? && b.Some? && c.Some? {
      CmpDateTransitive(c.value, b.value, a.value);
    }
  }

  /** Keys never go from smaller to greater. */
  ghost predicate SortedByKey(s: seq<Keyed>) {
    forall i, j :: 0 <= i < j < |s| ==> Compare(s[i].key, s[j].key) != Greater
  }

  /** Equal keys keep the order of their positions. */
  ghost predicate Stable(s: seq<Keyed>) {
    forall i, j :: 0 <= i < j < |s| && s[i].key == s[j].key ==> s[i].pos < s[j].pos
  }

  ghost predicate IncreasingPos(s: seq<Keyed>) {
    forall i, j :: 0 <= i < j < |s| ==> s[i].pos < s[j].pos
  }

  /** Where `x` goes in `t`: after every element it compares greater than. */
  function InsertionPoint(x: Keyed, t: seq<Keyed>): (k: nat)
    ensures k <= |t|
    ensures forall i :: 0 <= i < k ==> Compare(x.key, t[i].key) == Greater
    ensures k < |t| ==> Compare(x.key, t[k].key) != Greater
  {
    if t == [] || Compare(x.key, t[0].key) != Greater then 0
    else 1 + InsertionPoint(x, t[1..])
  }

  function Insert(x: Keyed, t: seq<Keyed>): seq<Keyed> {
    var k := InsertionPoint(x, t);
    t[..k] + [x] + t[k..]
  }

  /** The result of the stable `sort_by` on the collected pairs. */
  function SortByKey(s: seq<Keyed>): (r: seq<Keyed>)
    ensures |r| == |s|
  {
    if s == [] then [] else Insert(s[0], SortByKey(s[1..]))
  }

  /** The positions of a list of pairs, as `into_iter().map(|(idx, _)| idx)` keeps them. */
  function Firsts(s: seq<Keyed>): (r: seq<nat>)
    ensures |r| == |s|
    ensures forall i :: 0 <= i < |s| ==> r[i] == s[i].pos
  {
    seq(|s|, i requires 0 <= i < |s| => s[i].pos)
  }

  /** The positions `0 .. n-1` in order. */
  function Range(n: nat): (r: seq<nat>)
    ensures |r| == n
    ensures forall i :: 0 <= i < n ==> r[i] == i
  {
    seq(n, i requires 0 <= i < n => i)
  }

  /** The pairs as the scans collect them: post `i` with key `keys[i]`. */
  function Enumerate(keys: seq<SortKey>): (r: seq<Keyed>)
    ensures |r| == |keys|
    ensures forall i :: 0 <= i < |keys| ==> r[i] == Keyed(i, keys[i])
  {
    seq(|keys|, i requires 0 <= i < |keys| => Keyed(i, keys[i]))
  }

  lemma InsertPermutes(x: Keyed, t: seq<Keyed>)
    ensures multiset(Insert(x, t)) == multiset(t) + multiset{x}
  {
    var k := InsertionPoint(x, t);
    assert t == t[..k] + t[k..];
  }

  lemma {:induction false} SortPermutes(s: seq<Keyed>)
    ensures multiset(SortByKey(s)) == multiset(s)
  {
    if s != [] {
      SortPermutes(s[1..]);
      InsertPermutes(s[0], SortByKey(s[1..]));
      assert s == [s[0]] + s[1..];
    }
  }

  lemma {:induction false} InsertSorted(x: Keyed, t: seq<Keyed>)
    requires SortedByKey(t)
    ensures SortedByKey(Insert(x, t))
  {
    var k := InsertionPoint(x, t);
    var r := Insert(x, t);
    assert forall i :: 0 <= i < k ==> r[i] == t[i];
    assert r[k] == x;
    assert forall i :: k < i < |r| ==> r[i] == t[i - 1];
    forall i, j | 0 <= i < j < |r|
      ensures Compare(r[i].key, r[j].key) != Greater
    {
      if i < k && j == k {
        CompareAntisymmetric(x.key, t[i].key);
      } else if i == k && j > k {
        if j - 1 > k {
          CompareTransitive(x.key, t[k].key, t[j - 1].key);
        }
      } else if i < k && j > k {
        assert Compare(t[i].key, t[j - 1].key) != Greater;
      }
    }
  }

  lemma {:induction false} SortSorted(s: seq<Keyed>)
    ensures SortedByKey(SortByKey(s))
  {
    if s != [] {
      SortSorted(s[1..]);
      InsertSorted(s[0], SortByKey(s[1..]));
    }
  }

  lemma {:induction false} InsertStable(x: Keyed, t: seq<Keyed>)
    requires Stable(t)
    requires forall i :: 0 <= i < |t| ==> x.pos < t[i].pos
    ensures Stable(Insert(x, t))
  {
    var k := InsertionPoint(x, t);
    var r := Insert(x, t);
    assert forall i :: 0 <= i < k ==> r[i] == t[i];
    assert r[k] == x;
    assert forall i :: k < i < |r| ==> r[i] == t[i - 1];
    assert forall i :: 0 <= i < k ==> r[i].key != x.key;
    forall i, j | 0 <= i < j < |r| && r[i].key == r[j].key
      ensures r[i].pos < r[j].pos
    {
      if i < k && j > k {
        assert r[i].key == t[i].key && r[j].key == t[j - 1].key;
      } else if i > k {
        assert r[i] == t[i - 1] && r[j] == t[j - 1];
      }
    }
  }

  lemma {:induction false} SortStable(s: seq<Keyed>)
    requires IncreasingPos(s)
    ensures Stable(SortByKey(s))
  {
    if s != [] {
      SortStable(s[1..]);
      var t := SortByKey(s[1..]);
      SortPermutes(s[1..]);
      forall i | 0 <= i < |t|
        ensures s[0].pos < t[i].pos
      {
        assert t[i] in multiset(t);
        var j :| 0 <= j < |s[1..]| && s[1..][j] == t[i];
        assert s[j + 1] == t[i];
      }
      InsertStable(s[0], t);
    }
  }

  lemma FirstsConcat(a: seq<Keyed>, b: seq<Keyed>)
    ensures Firsts(a + b) == Firsts(a) + Firsts(b)
  {
  }

  lemma FirstsOfOne(x: Keyed)
    ensures Firsts([x]) == [x.pos]
  {
  }

  lemma InsertPermutesPositions(x: Keyed, t: seq<Keyed>)
    ensures multiset(Firsts(Insert(x, t))) == multiset(Firsts(t)) + multiset{x.pos}
  {
    var k := InsertionPoint(x, t);
    var a, b := t[..k], t[k..];
    assert t == a + b;
    assert Insert(x, t) == (a + [x]) + b;
    FirstsConcat(a + [x], b);
    FirstsConcat(a, [x]);
    FirstsConcat(a, b);
    FirstsOfOne(x);
  }

  lemma {:induction false} SortPermutesPositions(s: seq<Keyed>)
    ensures multiset(Firsts(SortByKey(s))) == multiset(Firsts(s))
  {
    if s != [] {
      var t := SortByKey(s[1..]);
      assert SortByKey(s) == Insert(s[0], t);
      SortPermutesPositions(s[1..]);
      InsertPermutesPositions(s[0], t);
      assert s == [s[0]] + s[1..];
      FirstsConcat([s[0]], s[1..]);
      FirstsOfOne(s[0]);
    }
  }

  /** Two keys neither of which sorts after the other are equal. */
  lemma CompareBothWays(a: SortKey, b: SortKey)
    requires Compare(a, b) != Greater && Compare(b, a) != Greater
    ensures a == b
  {
    CompareAntisymmetric(a, b);
    CompareAntisymmetric(b, a);
  }

  /** Two sorted, stable rearrangements of the same pairs start with the same pair. */
  lemma HeadsAgree(r1: seq<Keyed>, r2: seq<Keyed>)
    requires r1 != [] && r2 != [] && multiset(r1) == multiset(r2)
    requires SortedByKey(r1) && Stable(r1) && SortedByKey(r2) && Stable(r2)
    ensures r1[0] == r2[0]
  {
    var x, y := r1[0], r2[0];
    assert x in multiset(r2) && y in multiset(r1);
    var j :| 0 <= j < |r2| && r2[j] == x;
    var i :| 0 <= i < |r1| && r1[i] == y;
    assert Compare(x.key, y.key) != Greater;
    assert Compare(y.key, x.key) != Greater;
    CompareBothWays(x.key, y.key);
  }

  /** Dropping the first pair keeps a list sorted and stable, and removes that pair once. */
  lemma Tail(r: seq<Keyed>)
    requires r != [] && SortedByKey(r) && Stable(r)
    ensures SortedByKey(r[1..]) && Stable(r[1..])
    ensures multiset(r[1..]) == multiset(r) - multiset{r[0]}
  {
    assert r == [r[0]] + r[1..];
  }

  /**
   * There is only one stable ordering of a list of pairs: two sorted, stable
   * rearrangements of the same pairs are the same list.
   */
  lemma {:induction false} StableSortUnique(r1: seq<Keyed>, r2: seq<Keyed>)
    requires multiset(r1) == multiset(r2)
    requires SortedByKey(r1) && Stable(r1) && SortedByKey(r2) && Stable(r2)
    ensures r1 == r2
    decreases |r1|
  {
    assert |r1| == |multiset(r1)| == |multiset(r2)| == |r2|;
    if r1 != [] {
      HeadsAgree(r1, r2);
      Tail(r1);
      Tail(r2);
      StableSortUnique(r1[1..], r2[1..]);
      assert r1 == [r1[0]] + r1[1..] && r2 == [r2[0]] + r2[1..];
    }
  }

  /**
   * `sort_by` is stable and sorts by the comparator; whatever algorithm does that, its
   * result is the one `SortByKey` gives.
   */
  lemma SortByKeyIsTheStableSort(s: seq<Keyed>, r: seq<Keyed>)
    requires IncreasingPos(s)
    requires multiset(r) == multiset(s) && SortedByKey(r) && Stable(r)
    ensures r == SortByKey(s)
  {
    SortPermutes(s);
    SortSorted(s);
    SortStable(s);
    StableSortUnique(r, SortByKey(s));
  }

  /** The sorted pairs of `keys`: each pairs a position with its own key, sorted and stable. */
  lemma SortedEnumeration(keys: seq<SortKey>)
    ensures var r := SortByKey(Enumerate(keys));
      SortedByKey(r) && Stable(r) && multiset(Firsts(r)) == multiset(Range(|keys|))
      && forall i :: 0 <= i < |r| ==> r[i].pos < |keys| && r[i].key == keys[r[i].pos]
  {
    var s := Enumerate(keys);
    var r := SortByKey(s);
    SortPermutes(s);
    SortSorted(s);
    SortStable(s);
    SortPermutesPositions(s);
    assert Firsts(s) == Range(|keys|);
    forall i | 0 <= i < |r|
      ensures r[i].pos < |keys| && r[i].key == keys[r[i].pos]
    {
      assert r[i] in multiset(s);
    }
  }

  /**
   * `sorted_by_date`: the positions of the posts whose sort keys are `keys`, newest
   * first. It is a permutation of `0 .. |keys|-1`, no post ever follows one that
   * compares greater, and posts with equal keys stay in walk order.
   */
  function NewestFirst(keys: seq<SortKey>): (order: seq<nat>)
    ensures |order| == |keys|
    ensures multiset(order) == multiset(Range(|keys|))
    ensures forall i :: 0 <= i < |order| ==> order[i] < |keys|
    ensures forall i, j :: 0 <= i < j < |order| ==> Compare(keys[order[i]], keys[order[j]]) != Greater
    ensures forall i, j :: 0 <= i < j < |order| && keys[order[i]] == keys[order[j]] ==> order[i] < order[j]
  {
    SortedEnumeration(keys);
    var r := SortByKey(Enumerate(keys));
    Firsts(r)
  }

  /** In the newest-first order every post with a date comes before every post without one. */
  lemma DatedBeforeUndated(keys: seq<SortKey>, i: nat, j: nat)
    requires i < |keys| && j < |keys|
    requires keys[NewestFirst(keys)[i]].None? && keys[NewestFirst(keys)[j]].Some?
    ensures j < i
  {
    var order := NewestFirst(keys);
    assert Compare(keys[order[i]], keys[order[j]]) == Greater;
  }
}
