/**
 * How the page picks the questions it shows. `shuffled` tags every item with
 * a random key, sorts the tagged items by key and drops the keys again; the
 * page then takes the first ten items of one shuffled pass of the catalog,
 * or, when the catalog holds fewer than ten, of two shuffled passes laid end
 * to end, cut with slice(0, 10).
 *
 * The random keys are parameters: any sequence of keys the generator could
 * have drawn, one per item.
 */
module Selection {

  /** An item together with the shuffle key drawn for it. */
  datatype Tagged<T> = Tagged(key: real, value: T)

  /** The keys never decrease from left to right. */
  predicate SortedByKey<T>(ts: seq<Tagged<T>>) {
    forall i, j :: 0 <= i < j < |ts| ==> ts[i].key <= ts[j].key
  }

  /** Pairs each item with its key, the way the first `map` of `shuffled` does. */
  function Tag<T>(xs: seq<T>, keys: seq<real>): (ts: seq<Tagged<T>>)
    requires |keys| == |xs|
    ensures |ts| == |xs|
    ensures forall i :: 0 <= i < |ts| ==> ts[i] == Tagged(keys[i], xs[i])
    ensures Values(ts) == xs
    decreases |xs|
  {
    if xs == [] then
      []
    else
      var rest := Tag(xs[1..], keys[1..]);
      assert forall i :: 1 <= i < |xs| ==> rest[i - 1] == Tagged(keys[i], xs[i]);
      [Tagged(keys[0], xs[0])] + rest
  }

  /** The items without their keys, the way the last `map` of `shuffled` does. */
  function Values<T>(ts: seq<Tagged<T>>): (vs: seq<T>)
    ensures |vs| == |ts|
    ensures forall i :: 0 <= i < |ts| ==> vs[i] == ts[i].value
  {
    if ts == [] then [] else [ts[0].value] + Values(ts[1..])
  }

  /**
   * Puts t in front of the first item whose key is not smaller, so that in
   * a key-sorted sequence, among equal keys, the one inserted last comes first.
   */
  function InsertByKey<T>(t: Tagged<T>, ts: seq<Tagged<T>>): (r: seq<Tagged<T>>)
    ensures |r| == |ts| + 1
  {
    if ts == [] then [t]
    else if t.key <= ts[0].key then [t] + ts
    else [ts[0]] + InsertByKey(t, ts[1..])
  }

  /** Inserting into a key-sorted sequence keeps it sorted; the first key is the new one or the old first. */
  lemma {:induction false} InsertByKeySorted<T>(t: Tagged<T>, ts: seq<Tagged<T>>)
    requires SortedByKey(ts)
    ensures SortedByKey(InsertByKey(t, ts))
    ensures InsertByKey(t, ts)[0].key == t.key || (|ts| > 0 && InsertByKey(t, ts)[0].key == ts[0].key)
  {
    if ts == [] {
    } else if t.key <= ts[0].key {
      SortedCons(t, ts);
    } else {
      InsertByKeySorted(t, ts[1..]);
      SortedCons(ts[0], InsertByKey(t, ts[1..]));
    }
  }

  /** Inserting adds the one item and keeps all the others. */
  lemma {:induction false} InsertByKeyPermutes<T>(t: Tagged<T>, ts: seq<Tagged<T>>)
    ensures multiset(Values(InsertByKey(t, ts))) == multiset(Values(ts)) + multiset{t.value}
  {
    if ts == [] {
    } else if t.key <= ts[0].key {
      ValuesCons(t, ts);
    } else {
      InsertByKeyPermutes(t, ts[1..]);
      InsertPastFirst(t, ts);
    }
  }

  /** Inserting adds exactly the one tagged item, key included, and keeps all the others. */
  lemma {:induction false} InsertByKeyPermutesTagged<T>(t: Tagged<T>, ts: seq<Tagged<T>>)
    ensures multiset(InsertByKey(t, ts)) == multiset(ts) + multiset{t}
  {
    if ts == [] {
    } else if t.key <= ts[0].key {
    } else {
      var rest := InsertByKey(t, ts[1..]);
      InsertByKeyPermutesTagged(t, ts[1..]);
      assert InsertByKey(t, ts) == [ts[0]] + rest;
      FirstAndRest(ts);
      ConsKeepsPermutation(ts[0], rest, ts[1..], t);
    }
  }

  lemma FirstAndRest<T>(s: seq<T>)
    requires s != []
    ensures s == [s[0]] + s[1..]
  {
  }

  /** The step of InsertByKeyPermutes where t goes past the first item. */
  lemma InsertPastFirst<T>(t: Tagged<T>, ts: seq<Tagged<T>>)
    requires ts != [] && t.key > ts[0].key
    requires multiset(Values(InsertByKey(t, ts[1..]))) == multiset(Values(ts[1..])) + multiset{t.value}
    ensures multiset(Values(InsertByKey(t, ts))) == multiset(Values(ts)) + multiset{t.value}
  {
    var rest := InsertByKey(t, ts[1..]);
    assert InsertByKey(t, ts) == [ts[0]] + rest;
    ValuesCons(ts[0], rest);
    assert Values(ts) == [ts[0].value] + Values(ts[1..]);
    ConsKeepsPermutation(ts[0].value, Values(rest), Values(ts[1..]), t.value);
  }

  /** Putting the same item in front of both sides keeps "one more v" between them. */
  lemma ConsKeepsPermutation<T>(x: T, longer: seq<T>, shorter: seq<T>, v: T)
    requires multiset(longer) == multiset(shorter) + multiset{v}
    ensures multiset([x] + longer) == multiset([x] + shorter) + multiset{v}
  {
  }

  /** A key no larger than the first keeps a key-sorted sequence sorted when put in front. */
  lemma SortedCons<T>(t: Tagged<T>, ts: seq<Tagged<T>>)
    requires SortedByKey(ts) && (ts == [] || t.key <= ts[0].key)
    ensures SortedByKey([t] + ts)
  {
    var r := [t] + ts;
    forall i, j | 0 <= i < j < |r|
      ensures r[i].key <= r[j].key
    {
      if i == 0 && j > 1 {
        assert ts[0].key <= ts[j - 1].key;
      }
    }
  }

  lemma ValuesCons<T>(t: Tagged<T>, ts: seq<Tagged<T>>)
    ensures Values([t] + ts) == [t.value] + Values(ts)
  {
    assert ([t] + ts)[1..] == ts;
  }

  /**
   * Array.prototype.sort with the comparator (a, b) => a[0] - b[0]: the
   * tagged items in nondecreasing key order. The sort is stable (section
   * 23.1.3.30 of ECMA-262), which sorting from the back by insertion before
   * equal keys reproduces.
   */
  function SortByKey<T>(ts: seq<Tagged<T>>): (r: seq<Tagged<T>>)
    ensures SortedByKey(r)
    ensures |r| == |ts|
    ensures multiset(r) == multiset(ts)
    ensures multiset(Values(r)) == multiset(Values(ts))
  {
    if ts == [] then
      []
    else
      FirstAndRest(ts);
      InsertByKeySorted(ts[0], SortByKey(ts[1..]));
      InsertKeepsTagged(ts[0], ts[1..], SortByKey(ts[1..]));
      InsertKeepsValues(ts[0], ts[1..], SortByKey(ts[1..]));
      InsertByKey(ts[0], SortByKey(ts[1..]))
  }

  /** Inserting the first item into the sorted rest keeps every tagged item. */
  lemma InsertKeepsTagged<T>(t: Tagged<T>, rest: seq<Tagged<T>>, sorted: seq<Tagged<T>>)
    requires multiset(sorted) == multiset(rest)
    ensures multiset(InsertByKey(t, sorted)) == multiset([t] + rest)
  {
    InsertByKeyPermutesTagged(t, sorted);
  }

  /** Inserting the first item into the sorted rest keeps every value. */
  lemma InsertKeepsValues<T>(t: Tagged<T>, rest: seq<Tagged<T>>, sorted: seq<Tagged<T>>)
    requires multiset(Values(sorted)) == multiset(Values(rest))
    ensures multiset(Values(InsertByKey(t, sorted))) == multiset(Values([t] + rest))
  {
    ValuesCons(t, rest);
    InsertByKeyPermutes(t, sorted);
  }

  /** `shuffled`: the items reordered by the keys drawn for them. */
  function Shuffled<T>(xs: seq<T>, keys: seq<real>): seq<T>
    requires |keys| == |xs|
  {
    Values(SortByKey(Tag(xs, keys)))
  }

  /** `shuffled` returns a permutation of its input. */
  lemma ShuffledIsPermutation<T>(xs: seq<T>, keys: seq<real>)
    requires |keys| == |xs|
    ensures |Shuffled(xs, keys)| == |xs|
    ensures multiset(Shuffled(xs, keys)) == multiset(xs)
  {
    assert Values(Tag(xs, keys)) == xs;
  }

  /**
   * `shuffled` lists the items in the order of the keys drawn for them: its
   * result is the values of a key-sorted rearrangement of the items paired
   * with their keys.
   */
  lemma ShuffledFollowsKeys<T>(xs: seq<T>, keys: seq<real>)
    requires |keys| == |xs|
    ensures exists r :: SortedByKey(r) && multiset(r) == multiset(Tag(xs, keys)) && Values(r) == Shuffled(xs, keys)
  {
    var r := SortByKey(Tag(xs, keys));
    assert SortedByKey(r) && multiset(r) == multiset(Tag(xs, keys)) && Values(r) == Shuffled(xs, keys);
  }

  /** Array.prototype.slice(0, n): the first n items, or all of them when there are fewer. */
  function Take<T>(s: seq<T>, n: nat): (r: seq<T>)
    ensures |r| == if |s| <= n then |s| else n
    ensures r <= s
  {
    if |s| <= n then s else s[..n]
  }

  function Min(a: int, b: int): int {
    if a <= b then a else b
  }

  /**
   * The questions shown: ten of one shuffled pass when the catalog holds at
   * least ten, otherwise the first ten of two shuffled passes.
   */
  function Select<T>(catalog: seq<T>, keys1: seq<real>, keys2: seq<real>): (r: seq<T>)
    requires |keys1| == |catalog| && |keys2| == |catalog|
    ensures |r| == if |catalog| >= 10 then 10 else Min(10, 2 * |catalog|)
  {
    ShuffledIsPermutation(catalog, keys1);
    ShuffledIsPermutation(catalog, keys2);
    var pool := Shuffled(catalog, keys1);
    if |pool| >= 10 then pool[..10] else Take(pool + Shuffled(catalog, keys2), 10)
  }

  /** The items of a prefix are among the items of the whole. */
  lemma PrefixMultiset<T>(s: seq<T>, p: seq<T>)
    requires p <= s
    ensures multiset(p) <= multiset(s)
  {
    assert s == p + s[|p|..];
  }

  /** A prefix of a sequence that starts with a whole pass of u still holds all of u. */
  lemma PrefixKeepsFirstPass<T>(u: seq<T>, v: seq<T>, p: seq<T>)
    requires p <= u + v && |p| >= |u|
    ensures multiset(u) <= multiset(p)
  {
    assert p == u + p[|u|..];
  }

  /**
   * With at least ten catalog entries, the ten selected are drawn from the
   * catalog without repeating any entry more often than the catalog does.
   */
  lemma SelectLarge<T>(catalog: seq<T>, keys1: seq<real>, keys2: seq<real>)
    requires |keys1| == |catalog| && |keys2| == |catalog|
    requires |catalog| >= 10
    ensures |Select(catalog, keys1, keys2)| == 10
    ensures multiset(Select(catalog, keys1, keys2)) <= multiset(catalog)
  {
    var pool := Shuffled(catalog, keys1);
    ShuffledIsPermutation(catalog, keys1);
    PrefixMultiset(pool, pool[..10]);
  }

  /**
   * With fewer than ten catalog entries, every entry is selected at least as
   * often as it occurs in the catalog and at most twice as often.
   */
  lemma SelectSmall<T>(catalog: seq<T>, keys1: seq<real>, keys2: seq<real>)
    requires |keys1| == |catalog| && |keys2| == |catalog|
    requires |catalog| < 10
    ensures |Select(catalog, keys1, keys2)| == Min(10, 2 * |catalog|)
    ensures multiset(catalog) <= multiset(Select(catalog, keys1, keys2))
    ensures multiset(Select(catalog, keys1, keys2)) <= multiset(catalog) + multiset(catalog)
  {
    var pool, second := Shuffled(catalog, keys1), Shuffled(catalog, keys2);
    ShuffledIsPermutation(catalog, keys1);
    ShuffledIsPermutation(catalog, keys2);
    var r := Take(pool + second, 10);
    PrefixKeepsFirstPass(pool, second, r);
    PrefixMultiset(pool + second, r);
  }

  /** With fewer than five catalog entries the two passes are shown whole: each entry twice as often. */
  lemma SelectTiny<T>(catalog: seq<T>, keys1: seq<real>, keys2: seq<real>)
    requires |keys1| == |catalog| && |keys2| == |catalog|
    requires |catalog| < 5
    ensures |Select(catalog, keys1, keys2)| == 2 * |catalog| < 10
    ensures multiset(Select(catalog, keys1, keys2)) == multiset(catalog) + multiset(catalog)
  {
    ShuffledIsPermutation(catalog, keys1);
    ShuffledIsPermutation(catalog, keys2);
  }

  /** Every selected item is a catalog entry. */
  lemma SelectFromCatalog<T>(catalog: seq<T>, keys1: seq<real>, keys2: seq<real>)
    requires |keys1| == |catalog| && |keys2| == |catalog|
    ensures forall x :: x in Select(catalog, keys1, keys2) ==> x in catalog
  {
    var r := Select(catalog, keys1, keys2);
    if |catalog| >= 10 {
      SelectLarge(catalog, keys1, keys2);
    } else {
      SelectSmall(catalog, keys1, keys2);
    }
    forall x | x in r
      ensures x in catalog
    {
      assert x in multiset(r);
    }
  }

  /** No item occurs twice. */
  ghost predicate Distinct<T>(s: seq<T>) {
    forall i, j :: 0 <= i < j < |s| ==> s[i] != s[j]
  }

  /** A sequence is free of repeats exactly when no item occurs in it more than once. */
  lemma {:induction false} DistinctMultiset<T>(s: seq<T>)
    ensures Distinct(s) <==> forall x :: multiset(s)[x] <= 1
    decreases |s|
  {
    if s != [] {
      var t := s[1..];
      assert s == [s[0]] + t;
      DistinctMultiset(t);
      if Distinct(s) {
        assert Distinct(t);
        assert s[0] !in t by {
          forall k | 0 <= k < |t|
            ensures t[k] != s[0]
          {
            assert t[k] == s[k + 1];
          }
        }
      } else {
        var i, j :| 0 <= i < j < |s| && s[i] == s[j];
        if i == 0 {
          assert s[j] == t[j - 1];
          assert multiset(s)[s[0]] == multiset(t)[s[0]] + 1;
          assert multiset(t)[s[0]] >= 1;
        } else {
          assert s[i] == t[i - 1] && s[j] == t[j - 1];
          assert !Distinct(t);
          var x :| multiset(t)[x] > 1;
          assert multiset(s)[x] >= multiset(t)[x];
        }
      }
    }
  }

  /** With at least ten distinct catalog entries, the ten selected are distinct. */
  lemma SelectLargeDistinct<T>(catalog: seq<T>, keys1: seq<real>, keys2: seq<real>)
    requires |keys1| == |catalog| && |keys2| == |catalog|
    requires |catalog| >= 10 && Distinct(catalog)
    ensures Distinct(Select(catalog, keys1, keys2))
  {
    var r := Select(catalog, keys1, keys2);
    SelectLarge(catalog, keys1, keys2);
    DistinctMultiset(catalog);
    DistinctMultiset(r);
  }

  /**
   * With fewer than ten distinct catalog entries, every entry is selected
   * once or twice.
   */
  lemma SelectSmallCounts<T>(catalog: seq<T>, keys1: seq<real>, keys2: seq<real>)
    requires |keys1| == |catalog| && |keys2| == |catalog|
    requires |catalog| < 10 && Distinct(catalog)
    ensures forall x :: x in catalog ==> 1 <= multiset(Select(catalog, keys1, keys2))[x] <= 2
  {
    SelectSmall(catalog, keys1, keys2);
    DistinctMultiset(catalog);
    OnceOrTwice(catalog, Select(catalog, keys1, keys2));
  }

  /**
   * With five to nine distinct catalog entries more items are shown than
   * there are entries, so some entry is selected twice.
   */
  lemma SelectSmallRepeats<T>(catalog: seq<T>, keys1: seq<real>, keys2: seq<real>)
    requires |keys1| == |catalog| && |keys2| == |catalog|
    requires 5 <= |catalog| < 10 && Distinct(catalog)
    ensures exists x :: x in catalog && multiset(Select(catalog, keys1, keys2))[x] == 2
  {
    SelectSmall(catalog, keys1, keys2);
    DistinctMultiset(catalog);
    SomeTwice(catalog, Select(catalog, keys1, keys2));
  }

  /** Between one and two copies of a repeat-free c, a sequence longer than c holds some item of c twice. */
  lemma SomeTwice<T>(c: seq<T>, r: seq<T>)
    requires multiset(c) <= multiset(r) <= multiset(c) + multiset(c)
    requires forall x :: multiset(c)[x] <= 1
    requires |r| > |c|
    ensures exists x :: x in c && multiset(r)[x] == 2
  {
    var d := multiset(r) - multiset(c);
    assert multiset(r) == multiset(c) + d;
    assert |d| > 0;
    var x :| x in d;
    assert multiset(r)[x] == multiset(c)[x] + d[x];
    assert x in c;
  }

  /** Between one and two copies of a repeat-free sequence, each of its items occurs once or twice. */
  lemma OnceOrTwice<T>(c: seq<T>, r: seq<T>)
    requires multiset(c) <= multiset(r) <= multiset(c) + multiset(c)
    requires forall x :: multiset(c)[x] <= 1
    ensures forall x :: x in c ==> 1 <= multiset(r)[x] <= 2
  {
    forall x | x in c
      ensures 1 <= multiset(r)[x] <= 2
    {
      assert multiset(c)[x] == 1;
    }
  }
}
