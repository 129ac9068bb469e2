/**
 * The array operations the citation store and the watcher bookkeeping rely
 * on: duplicate-freedom, occurrence counts, first-occurrence order (the order
 * in which `Object.keys` lists keys inserted one by one), `indexOf`, and
 * `splice(i, 1)` with its treatment of a negative index.
 */
module Lists {

  predicate NoDups<T(==)>(s: seq<T>) {
    forall i, j :: 0 <= i < j < |s| ==> s[i] != s[j]
  }

  /** How many times `x` occurs in `s`. */
  function Count<T(==)>(s: seq<T>, x: T): (r: nat)
    ensures r <= |s|
    ensures r == 0 <==> x !in s
  {
    if s == [] then 0 else (if s[|s| - 1] == x then 1 else 0) + Count(s[..|s| - 1], x)
  }

  /** The distinct elements of `s`, each at the place of its first occurrence. */
  function Distinct<T(==)>(s: seq<T>): (r: seq<T>)
    ensures NoDups(r)
    ensures forall i :: 0 <= i < |r| ==> r[i] in s
    ensures forall i :: 0 <= i < |s| ==> s[i] in r
  {
    if s == [] then []
    else
      var d := Distinct(s[..|s| - 1]);
      if s[|s| - 1] in d then d else d + [s[|s| - 1]]
  }

  /** `s.indexOf(x)`. */
  function IndexOfValue<T(==)>(s: seq<T>, x: T): (r: int)
    ensures -1 <= r < |s|
    ensures r == -1 <==> x !in s
    ensures r >= 0 ==> s[r] == x && forall j :: 0 <= j < r ==> s[j] != x
  {
    if s == [] then -1
    else if s[0] == x then 0
    else var k := IndexOfValue(s[1..], x); if k == -1 then -1 else k + 1
  }

  /**
   * `s.splice(i, 1)` as a value: a negative index counts from the end (and
   * `-1` therefore removes the last element); an index past the end removes
   * nothing.
   */
  function RemoveAt<T>(s: seq<T>, i: int): (r: seq<T>)
    ensures |r| == |s| || |r| == |s| - 1
  {
    var k := if i < 0 then (if |s| + i < 0 then 0 else |s| + i) else i;
    if k >= |s| then s else s[..k] + s[k + 1..]
  }

  /** `s` without any occurrence of `x`. */
  function Without<T(==)>(s: seq<T>, x: T): (r: seq<T>)
    ensures forall i :: 0 <= i < |r| ==> r[i] in s && r[i] != x
    ensures forall i :: 0 <= i < |s| && s[i] != x ==> s[i] in r
    ensures |r| <= |s|
  {
    if s == [] then []
    else if s[0] == x then Without(s[1..], x)
    else [s[0]] + Without(s[1..], x)
  }

  /** Removing an element keeps a duplicate-free list duplicate-free. */
  lemma {:induction false} WithoutNoDups<T>(s: seq<T>, x: T)
    requires NoDups(s)
    ensures NoDups(Without(s, x))
    decreases |s|
  {
    if s != [] {
      WithoutNoDups(s[1..], x);
      if s[0] != x {
        assert s[0] !in s[1..];
      }
    }
  }

  /** In a duplicate-free list, splicing out the index of a member removes exactly that member. */
  lemma {:induction false} RemoveAtIndexOf<T>(s: seq<T>, x: T)
    requires NoDups(s) && x in s
    ensures RemoveAt(s, IndexOfValue(s, x)) == Without(s, x)
    decreases |s|
  {
    var t := s[1..];
    NoDupsTail(s);
    if s[0] == x {
      WithoutAbsent(t, x);
      assert RemoveAt(s, 0) == t;
    } else {
      assert x in t by {
        assert s == [s[0]] + t;
      }
      RemoveAtIndexOf(t, x);
      var k := IndexOfValue(t, x);
      assert IndexOfValue(s, x) == k + 1;
      assert Without(s, x) == [s[0]] + Without(t, x);
      ConsSplice(s, k);
    }
  }

  /** The tail of a duplicate-free list is duplicate-free and misses the head. */
  lemma NoDupsTail<T>(s: seq<T>)
    requires NoDups(s) && s != []
    ensures NoDups(s[1..]) && s[0] !in s[1..]
  {
    var t := s[1..];
    forall i, j | 0 <= i < j < |t|
      ensures t[i] != t[j]
    {
      assert t[i] == s[i + 1] && t[j] == s[j + 1];
    }
    forall i | 0 <= i < |t|
      ensures t[i] != s[0]
    {
      assert t[i] == s[i + 1];
    }
  }

  /** Splicing out index `k + 1` keeps the head and splices index `k` out of the tail. */
  lemma ConsSplice<T>(s: seq<T>, k: nat)
    requires k + 1 < |s|
    ensures RemoveAt(s, k + 1) == [s[0]] + RemoveAt(s[1..], k)
  {
    var t := s[1..];
    assert s[..k + 1] == [s[0]] + t[..k];
    assert s[k + 2..] == t[k + 1..];
  }

  /** Removing an absent element changes nothing. */
  lemma {:induction false} WithoutAbsent<T>(s: seq<T>, x: T)
    requires x !in s
    ensures Without(s, x) == s
    decreases |s|
  {
    if s != [] {
      WithoutAbsent(s[1..], x);
      assert s == [s[0]] + s[1..];
    }
  }

  /** `splice(indexOf(x), 1)` on a list without `x` drops its last element. */
  lemma RemoveAtMissing<T>(s: seq<T>, x: T)
    requires x !in s && s != []
    ensures RemoveAt(s, IndexOfValue(s, x)) == s[..|s| - 1]
  {
  }

  /** The number of distinct values and the length agree exactly when nothing repeats (`new Set(a).size === a.length`). */
  lemma {:induction false} SetSizeNoDups<T>(s: seq<T>)
    ensures |set x | x in s| <= |s|
    ensures |set x | x in s| == |s| <==> NoDups(s)
    decreases |s|
  {
    if s != [] {
      var init, last := s[..|s| - 1], s[|s| - 1];
      SetSizeNoDups(init);
      assert (set x | x in s) == (set x | x in init) + {last} by {
        assert s == init + [last];
      }
      if last in init {
        assert (set x | x in s) == (set x | x in init);
        var i :| 0 <= i < |init| && init[i] == last;
        assert s[i] == s[|s| - 1];
      } else {
        assert NoDups(s) <==> NoDups(init) by {
          if NoDups(init) {
            forall i, j | 0 <= i < j < |s|
              ensures s[i] != s[j]
            {
              if j < |s| - 1 {
                assert s[i] == init[i] && s[j] == init[j];
              } else {
                assert s[i] in init;
              }
            }
          }
          if NoDups(s) {
            forall i, j | 0 <= i < j < |init|
              ensures init[i] != init[j]
            {
              assert s[i] == init[i] && s[j] == init[j];
            }
          }
        }
      }
    }
  }

  /** A list with a repeated element has a value occurring twice, and conversely. */
  lemma {:induction false} NoDupsCount<T>(s: seq<T>)
    ensures NoDups(s) <==> forall x :: x in s ==> Count(s, x) == 1
    decreases |s|
  {
    if s != [] {
      var init, last := s[..|s| - 1], s[|s| - 1];
      NoDupsCount(init);
      assert s == init + [last];
      if NoDups(s) {
        assert NoDups(init) by {
          forall i, j | 0 <= i < j < |init|
            ensures init[i] != init[j]
          {
            assert s[i] == init[i] && s[j] == init[j];
          }
        }
        assert last !in init by {
          forall i | 0 <= i < |init|
            ensures init[i] != last
          {
            assert s[i] == init[i];
          }
        }
        forall x | x in s
          ensures Count(s, x) == 1
        {
          if x != last {
            assert x in init;
          }
        }
      } else {
        var i, j :| 0 <= i < j < |s| && s[i] == s[j];
        if j == |s| - 1 {
          assert init[i] == last;
          assert Count(s, last) > 1;
        } else {
          assert !NoDups(init) by {
            assert init[i] == init[j];
          }
          var y :| y in init && Count(init, y) != 1;
          assert Count(s, y) >= Count(init, y);
          assert y in s;
        }
      }
    }
  }

  /** Appending an absent element keeps a list duplicate-free. */
  lemma SnocNoDups<T>(s: seq<T>, x: T)
    requires NoDups(s) && x !in s
    ensures NoDups(s + [x])
  {
    forall i, j | 0 <= i < j < |s + [x]|
      ensures (s + [x])[i] != (s + [x])[j]
    {
      if j == |s| {
        assert (s + [x])[i] == s[i];
      }
    }
  }

  /** Splicing out any one index keeps a list duplicate-free. */
  lemma RemoveAtNoDups<T>(s: seq<T>, i: int)
    requires NoDups(s)
    ensures NoDups(RemoveAt(s, i))
  {
    var k := if i < 0 then (if |s| + i < 0 then 0 else |s| + i) else i;
    if k < |s| {
      var r := s[..k] + s[k + 1..];
      forall a, b | 0 <= a < b < |r|
        ensures r[a] != r[b]
      {
        var a' := if a < k then a else a + 1;
        var b' := if b < k then b else b + 1;
        assert r[a] == s[a'] && r[b] == s[b'];
      }
    }
  }

  /** `s.filter(e => t.includes(e))`. */
  function KeepIn<T(==)>(s: seq<T>, t: seq<T>): (r: seq<T>)
    ensures forall i :: 0 <= i < |r| ==> r[i] in s && r[i] in t
    ensures forall i :: 0 <= i < |s| && s[i] in t ==> s[i] in r
    ensures |r| <= |s|
  {
    if s == [] then []
    else if s[0] in t then [s[0]] + KeepIn(s[1..], t)
    else KeepIn(s[1..], t)
  }

  /** `s.filter(e => !t.includes(e))`. */
  function DropIn<T(==)>(s: seq<T>, t: seq<T>): (r: seq<T>)
    ensures forall i :: 0 <= i < |r| ==> r[i] in s && r[i] !in t
    ensures forall i :: 0 <= i < |s| && s[i] !in t ==> s[i] in r
    ensures |r| <= |s|
  {
    if s == [] then []
    else if s[0] in t then DropIn(s[1..], t)
    else [s[0]] + DropIn(s[1..], t)
  }

  /** Filtering keeps a list duplicate-free. */
  lemma {:induction false} DropInNoDups<T>(s: seq<T>, t: seq<T>)
    requires NoDups(s)
    ensures NoDups(DropIn(s, t))
    decreases |s|
  {
    if s != [] {
      assert NoDups(s[1..]);
      DropInNoDups(s[1..], t);
      assert s[0] !in s[1..];
    }
  }

  /** Removing one more value from a filtered list is filtering by one more value. */
  lemma {:induction false} WithoutDropIn<T>(s: seq<T>, t: seq<T>, x: T)
    ensures Without(DropIn(s, t), x) == DropIn(s, t + [x])
    decreases |s|
  {
    if s != [] {
      WithoutDropIn(s[1..], t, x);
      assert s[0] in t + [x] <==> s[0] in t || s[0] == x;
    }
  }

  /** Dropping the members of a set's complement keeps exactly the members of the set. */
  lemma {:induction false} DropInComplement<T>(s: seq<T>, d: seq<T>, t: seq<T>)
    requires forall i :: 0 <= i < |s| ==> (s[i] in d <==> s[i] !in t)
    ensures DropIn(s, d) == KeepIn(s, t)
    decreases |s|
  {
    if s != [] {
      assert forall i :: 0 <= i < |s[1..]| ==> s[1..][i] == s[i + 1];
      DropInComplement(s[1..], d, t);
    }
  }

  /** Filtering by nothing keeps everything. */
  lemma {:induction false} DropInNone<T>(s: seq<T>)
    ensures DropIn(s, []) == s
    decreases |s|
  {
    if s != [] {
      DropInNone(s[1..]);
    }
  }

  /** A duplicate-free list is its duplicate-free front plus a last element not in that front. */
  lemma NoDupsInit<T>(s: seq<T>)
    requires NoDups(s) && s != []
    ensures NoDups(s[..|s| - 1]) && s[|s| - 1] !in s[..|s| - 1]
  {
    var init := s[..|s| - 1];
    forall i, j | 0 <= i < j < |init|
      ensures init[i] != init[j]
    {
      assert init[i] == s[i] && init[j] == s[j];
    }
    forall i | 0 <= i < |init|
      ensures init[i] != s[|s| - 1]
    {
      assert init[i] == s[i];
    }
  }

  /** A member of `s` outside `t` survives filtering by `t`. */
  lemma DropInKeeps<T>(s: seq<T>, t: seq<T>, x: T)
    requires x in s && x !in t
    ensures x in DropIn(s, t)
  {
    var k :| 0 <= k < |s| && s[k] == x;
  }
}
