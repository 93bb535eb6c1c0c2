/**
 * Python's `sorted(words, key=heuristic.get)` over a sequence of words: a sort
 * by an integer key held in a map, written as an insertion sort.
 */
module KeySort {
  /** Every element of `s` has a key. */
  predicate Keyed(s: seq<string>, key: map<string, int>) {
    forall i :: 0 <= i < |s| ==> s[i] in key
  }

  /** Keys never decrease along `s`. */
  predicate Sorted(s: seq<string>, key: map<string, int>)
    requires Keyed(s, key)
  {
    forall i, j :: 0 <= i < j < |s| ==> key[s[i]] <= key[s[j]]
  }

  /** Every key in `s` is at least `k`. */
  predicate AtLeast(k: int, s: seq<string>, key: map<string, int>)
    requires Keyed(s, key)
  {
    forall i :: 0 <= i < |s| ==> k <= key[s[i]]
  }

  /** Putting `x` in front: the keys stay sorted when `x`'s key bounds the rest's,
      and a lower bound holds for the whole exactly when it holds for both parts. */
  lemma Cons(x: string, rest: seq<string>, key: map<string, int>)
    requires x in key && Keyed(rest, key)
    ensures Keyed([x] + rest, key)
    ensures Sorted(rest, key) && AtLeast(key[x], rest, key) ==> Sorted([x] + rest, key)
    ensures forall k :: AtLeast(k, [x] + rest, key) <==> k <= key[x] && AtLeast(k, rest, key)
  {
    var r := [x] + rest;
    if Sorted(rest, key) && AtLeast(key[x], rest, key) {
      forall i, j | 0 <= i < j < |r| ensures key[r[i]] <= key[r[j]] {
        assert r[j] == rest[j - 1];
        if i > 0 {
          assert r[i] == rest[i - 1];
        }
      }
    }
    forall k | k <= key[x] && AtLeast(k, rest, key) ensures AtLeast(k, r, key) {
      forall i | 0 <= i < |r| ensures k <= key[r[i]] {
        if i > 0 {
          assert r[i] == rest[i - 1];
        }
      }
    }
    forall k | AtLeast(k, r, key) ensures k <= key[x] && AtLeast(k, rest, key) {
      assert r[0] == x;
      forall i | 0 <= i < |rest| ensures k <= key[rest[i]] {
        assert rest[i] == r[i + 1];
      }
    }
  }

  /** Put `w` before the first element whose key is not smaller, so that equal
      keys keep `w` ahead of the elements that came after it. */
  function Insert(w: string, s: seq<string>, key: map<string, int>): (r: seq<string>)
    requires w in key && Keyed(s, key) && Sorted(s, key)
    ensures Keyed(r, key) && Sorted(r, key)
    ensures multiset(r) == multiset(s) + multiset{w}
    ensures |r| == |s| + 1
    ensures forall k :: AtLeast(k, s, key) && k <= key[w] ==> AtLeast(k, r, key)
    decreases |s|
  {
    if |s| == 0 then [w]
    else if key[w] <= key[s[0]] then
      assert AtLeast(key[w], s, key);
      Cons(w, s, key);
      [w] + s
    else
      assert s == [s[0]] + s[1..];
      Cons(s[0], s[1..], key);
      var rest := Insert(w, s[1..], key);
      Cons(s[0], rest, key);
      [s[0]] + rest
  }

  /** The sort: a permutation of `s` with non-decreasing keys. */
  function Sort(s: seq<string>, key: map<string, int>): (r: seq<string>)
    requires Keyed(s, key)
    ensures Keyed(r, key) && Sorted(r, key)
    ensures multiset(r) == multiset(s)
    decreases |s|
  {
    if |s| == 0 then []
    else
      assert s == [s[0]] + s[1..];
      Insert(s[0], Sort(s[1..], key), key)
  }

  /** The tail of a sorted sequence is sorted and bounded below by its head. */
  lemma Tail(s: seq<string>, key: map<string, int>)
    requires |s| > 0 && Keyed(s, key) && Sorted(s, key)
    ensures Keyed(s[1..], key) && Sorted(s[1..], key) && AtLeast(key[s[0]], s[1..], key)
  {
    var t := s[1..];
    assert forall i :: 0 <= i < |t| ==> t[i] == s[i + 1];
  }

  /** Sorting already sorted words changes nothing. */
  lemma {:induction false} SortKeepsSorted(s: seq<string>, key: map<string, int>)
    requires Keyed(s, key) && Sorted(s, key)
    ensures Sort(s, key) == s
    decreases |s|
  {
    if |s| > 0 {
      var t := s[1..];
      Tail(s, key);
      SortKeepsSorted(t, key);
      if |t| > 0 {
        assert key[s[0]] <= key[t[0]];
      }
      assert Insert(s[0], t, key) == [s[0]] + t;
      assert s == [s[0]] + t;
    }
  }
}
