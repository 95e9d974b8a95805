/** The newest-first listings: `order_by(created_at.desc())` over a whole table. */
module Listing {

  predicate SortedDesc<T>(s: seq<T>, key: T -> int)
  {
    forall i, j :: 0 <= i < j < |s| ==> key(s[i]) >= key(s[j])
  }

  /** `x` placed into a descending sequence before the first element with a smaller or equal key. */
  function InsertDesc<T>(x: T, s: seq<T>, key: T -> int): seq<T>
  {
    if s == [] || key(s[0]) <= key(x) then [x] + s else [s[0]] + InsertDesc(x, s[1..], key)
  }

  /** The rows ordered by key, largest first (insertion sort). */
  function NewestFirst<T>(s: seq<T>, key: T -> int): seq<T>
  {
    if s == [] then [] else InsertDesc(s[0], NewestFirst(s[1..], key), key)
  }

  /** A bound on the keys of `s` and of `x` bounds the keys of any `r` holding exactly their elements. */
  lemma KeysBelow<T>(r: seq<T>, s: seq<T>, x: T, key: T -> int, b: int)
    requires multiset(r) == multiset(s) + multiset{x}
    requires key(x) <= b && forall i :: 0 <= i < |s| ==> key(s[i]) <= b
    ensures forall i :: 0 <= i < |r| ==> key(r[i]) <= b
  {
    forall i | 0 <= i < |r| ensures key(r[i]) <= b {
      assert r[i] in multiset(r);
      if r[i] != x {
        assert r[i] in multiset(s);
      }
    }
  }

  /** An element with a key no smaller than every key of a descending sequence can be put in front. */
  lemma ConsSorted<T>(y: T, r: seq<T>, key: T -> int)
    requires SortedDesc(r, key)
    requires forall i :: 0 <= i < |r| ==> key(r[i]) <= key(y)
    ensures SortedDesc([y] + r, key)
  {
    var yr := [y] + r;
    forall i, j | 0 <= i < j < |yr| ensures key(yr[i]) >= key(yr[j]) {
      assert yr[j] == r[j - 1];
      if i > 0 {
        assert yr[i] == r[i - 1];
      }
    }
  }

  /** Inserting keeps exactly the elements, plus the one inserted. */
  lemma {:induction false} InsertDescPermutes<T>(x: T, s: seq<T>, key: T -> int)
    ensures multiset(InsertDesc(x, s, key)) == multiset(s) + multiset{x}
  {
    if s != [] && key(s[0]) > key(x) {
      InsertDescPermutes(x, s[1..], key);
      assert s == [s[0]] + s[1..];
    }
  }

  /** Inserting into a descending sequence keeps it descending. */
  lemma {:induction false} InsertDescSorted<T>(x: T, s: seq<T>, key: T -> int)
    requires SortedDesc(s, key)
    ensures SortedDesc(InsertDesc(x, s, key), key)
  {
    if s == [] || key(s[0]) <= key(x) {
      ConsSorted(x, s, key);
    } else {
      var r' := InsertDesc(x, s[1..], key);
      assert SortedDesc(s[1..], key);
      InsertDescSorted(x, s[1..], key);
      InsertDescPermutes(x, s[1..], key);
      KeysBelow(r', s[1..], x, key, key(s[0]));
      ConsSorted(s[0], r', key);
    }
  }

  /** Newest first is a permutation of the table, sorted by key descending. */
  lemma {:induction false} NewestFirstSorted<T>(s: seq<T>, key: T -> int)
    ensures SortedDesc(NewestFirst(s, key), key)
    ensures multiset(NewestFirst(s, key)) == multiset(s)
  {
    if s != [] {
      NewestFirstSorted(s[1..], key);
      InsertDescSorted(s[0], NewestFirst(s[1..], key), key);
      InsertDescPermutes(s[0], NewestFirst(s[1..], key), key);
      assert s == [s[0]] + s[1..];
    }
  }

  /** A descending insert of a key smaller than every element appends it. */
  lemma {:induction false} InsertSmallest<T>(x: T, s: seq<T>, key: T -> int)
    requires forall i :: 0 <= i < |s| ==> key(x) < key(s[i])
    ensures InsertDesc(x, s, key) == s + [x]
  {
    if s != [] {
      InsertSmallest(x, s[1..], key);
    }
  }

  /** Keys that increase strictly along `s` do so along `s[1..]`, and all exceed the first. */
  lemma IncreasingTail<T>(s: seq<T>, key: T -> int)
    requires s != []
    requires forall i, j :: 0 <= i < j < |s| ==> key(s[i]) < key(s[j])
    ensures forall i, j :: 0 <= i < j < |s| - 1 ==> key(s[1..][i]) < key(s[1..][j])
    ensures forall i :: 0 <= i < |s| - 1 ==> key(s[0]) < key(s[1..][i])
  {
    assert forall i :: 0 <= i < |s| - 1 ==> s[1..][i] == s[i + 1];
  }

  /** The reversal of `s[1..]` followed by `s[0]` is the reversal of `s`. */
  lemma ReversalSnoc<T>(s: seq<T>, r': seq<T>, r: seq<T>)
    requires s != [] && |r'| == |s| - 1 && r == r' + [s[0]]
    requires forall i :: 0 <= i < |r'| ==> r'[i] == s[1..][|r'| - 1 - i]
    ensures |r| == |s| && forall i :: 0 <= i < |s| ==> r[i] == s[|s| - 1 - i]
  {
    forall i | 0 <= i < |s| ensures r[i] == s[|s| - 1 - i] {
      if i < |r'| {
        assert r[i] == r'[i] == s[1..][|r'| - 1 - i];
      }
    }
  }

  /**
   * On a table whose keys strictly increase in table order (rows appended
   * with a clock that moves forward), newest first is the table reversed.
   */
  lemma {:induction false} NewestFirstReverses<T>(s: seq<T>, key: T -> int)
    requires forall i, j :: 0 <= i < j < |s| ==> key(s[i]) < key(s[j])
    ensures |NewestFirst(s, key)| == |s|
    ensures forall i :: 0 <= i < |s| ==> NewestFirst(s, key)[i] == s[|s| - 1 - i]
  {
    if s != [] {
      var tail := s[1..];
      IncreasingTail(s, key);
      NewestFirstReverses(tail, key);
      var r' := NewestFirst(tail, key);
      forall i | 0 <= i < |r'| ensures key(s[0]) < key(r'[i]) {
        assert r'[i] == tail[|tail| - 1 - i];
      }
      InsertSmallest(s[0], r', key);
      ReversalSnoc(s, r', NewestFirst(s, key));
    }
  }
}
