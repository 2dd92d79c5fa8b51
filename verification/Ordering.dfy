/** The order in which a `BTreeMap` is iterated: by code point, least key first. */
module Ordering {

  /** `a` does not come after `b`. */
  predicate AtMost(a: string, b: string)
    decreases |a|
  {
    a == [] || (b != [] && (a[0] < b[0] || (a[0] == b[0] && AtMost(a[1..], b[1..]))))
  }

  lemma {:induction false} AtMostIsTotal(a: string, b: string)
    ensures AtMost(a, b) || AtMost(b, a)
    decreases |a|
  {
    if a == [] || b == [] {
    } else {
      AtMostIsTotal(a[1..], b[1..]);
    }
  }

  lemma {:induction false} AtMostIsAntisymmetric(a: string, b: string)
    requires AtMost(a, b) && AtMost(b, a)
    ensures a == b
    decreases |a|
  {
    if a == [] || b == [] {
    } else {
      AtMostIsAntisymmetric(a[1..], b[1..]);
      assert a == [a[0]] + a[1..] && b == [b[0]] + b[1..];
    }
  }

  lemma {:induction false} AtMostIsTransitive(a: string, b: string, c: string)
    requires AtMost(a, b) && AtMost(b, c)
    ensures AtMost(a, c)
    decreases |a|
  {
    if a == [] || b == [] || a[0] != b[0] || b[0] != c[0] {
    } else {
      AtMostIsTransitive(a[1..], b[1..], c[1..]);
    }
  }

  lemma SameStart(a: string, b: string, i: nat)
    requires i <= |a| && i <= |b| && a[..i] == b[..i]
    ensures i == 0 || a[0] == b[0]
  {
    if i > 0 {
      assert a[..i][0] == a[0] && b[..i][0] == b[0];
    }
  }

  /** A prefix comes first; otherwise the first different character decides. */
  lemma {:induction false} AtMostExactly(a: string, b: string)
    ensures AtMost(a, b) <==>
            a <= b || exists i :: 0 <= i < |a| && i < |b| && a[..i] == b[..i] && a[i] < b[i]
    decreases |a|
  {
    if a == [] || b == [] {
    } else {
      AtMostExactly(a[1..], b[1..]);
      if a[0] == b[0] {
        assert a <= b <==> a[1..] <= b[1..];
        if i :| 0 <= i < |a| && i < |b| && a[..i] == b[..i] && a[i] < b[i] {
          assert i > 0 && a[1..][..i - 1] == a[..i][1..] == b[..i][1..] == b[1..][..i - 1];
        }
        if i :| 0 <= i < |a[1..]| && i < |b[1..]| && a[1..][..i] == b[1..][..i] && a[1..][i] < b[1..][i] {
          assert a[..i + 1] == [a[0]] + a[1..][..i] && b[..i + 1] == [b[0]] + b[1..][..i];
          assert a[i + 1] < b[i + 1];
        }
      } else if a[0] < b[0] {
        assert a[..0] == b[..0];
      } else {
        assert !(a <= b);
        forall i | 0 <= i < |a| && i < |b| && a[..i] == b[..i] ensures i == 0 {
          SameStart(a, b, i);
        }
      }
    }
  }

  predicate IsLeast(k: string, keys: set<string>) {
    k in keys && forall x | x in keys :: AtMost(k, x)
  }

  lemma {:induction false} LeastExists(keys: set<string>)
    requires keys != {}
    ensures exists k :: IsLeast(k, keys)
    decreases |keys|
  {
    var k :| k in keys;
    AtMostIsTotal(k, k);
    if keys == {k} {
      assert IsLeast(k, keys);
    } else {
      LeastExists(keys - {k});
      var m :| IsLeast(m, keys - {k});
      AtMostIsTotal(k, m);
      if AtMost(k, m) {
        forall x | x in keys ensures AtMost(k, x) {
          if x != k { AtMostIsTransitive(k, m, x); }
        }
        assert IsLeast(k, keys);
      } else {
        assert IsLeast(m, keys);
      }
    }
  }

  lemma LeastIsUnique(keys: set<string>)
    ensures forall k, m | IsLeast(k, keys) && IsLeast(m, keys) :: k == m
  {
    forall k, m | IsLeast(k, keys) && IsLeast(m, keys) ensures k == m {
      AtMostIsAntisymmetric(k, m);
    }
  }

  /** The key a `BTreeMap` iteration yields first. */
  function Least(keys: set<string>): (k: string)
    requires keys != {}
    ensures IsLeast(k, keys)
  {
    LeastExists(keys);
    LeastIsUnique(keys);
    var k :| k in keys && IsLeast(k, keys);
    k
  }

  /** Nothing left to visit comes before it. */
  lemma NothingBelowLeast(keys: set<string>)
    requires keys != {}
    ensures forall x | x in keys && AtMost(x, Least(keys)) :: x == Least(keys)
  {
    forall x | x in keys && AtMost(x, Least(keys)) { AtMostIsAntisymmetric(x, Least(keys)); }
  }

  lemma OneLess<T>(k: T, rest: seq<T>, all: set<T>)
    requires k in all && |rest| == |all - {k}| && forall x :: x in rest <==> x in all - {k}
    ensures |[k] + rest| == |all| && forall x :: x in [k] + rest <==> x in all
  {
  }

  // ---------- by time, then by key ----------

  predicate IsOldest(k: string, times: map<string, int>) {
    k in times && forall x | x in times :: times[k] <= times[x]
  }

  lemma {:induction false} OldestExists(times: map<string, int>)
    requires times.Keys != {}
    ensures exists k :: IsOldest(k, times)
    decreases |times.Keys|
  {
    var k :| k in times;
    var rest := times - {k};
    assert rest.Keys == times.Keys - {k};
    if rest.Keys == {} {
      assert forall x | x in times :: x == k || x in rest;
      assert IsOldest(k, times);
    } else {
      OldestExists(rest);
      var m :| IsOldest(m, rest);
      assert forall x | x in times :: x == k || x in rest;
      assert IsOldest(k, times) || IsOldest(m, times);
    }
  }

  predicate CameBefore(times: map<string, int>, a: string, b: string)
    requires a in times && b in times
  {
    times[a] < times[b] || (times[a] == times[b] && AtMost(a, b))
  }

  function First(times: map<string, int>): (k: string)
    requires times.Keys != {}
    ensures k in times && forall x | x in times :: CameBefore(times, k, x)
  {
    OldestExists(times);
    var oldest := set k | k in times && IsOldest(k, times);
    assert oldest != {} by { var k :| IsOldest(k, times); assert k in oldest; }
    Least(oldest)
  }

  /** Sorted by time, ties by key. */
  function ByTime(times: map<string, int>): (r: seq<string>)
    ensures |r| == |times.Keys| && forall k :: k in r <==> k in times
    decreases |times.Keys|
  {
    if times.Keys == {} then []
    else
      var first := First(times);
      var rest := times - {first};
      assert rest.Keys == times.Keys - {first};
      OneLess(first, ByTime(rest), times.Keys);
      [first] + ByTime(rest)
  }

  ghost predicate InOrder(times: map<string, int>, r: seq<string>) {
    (forall k | k in r :: k in times) &&
    forall i, j | 0 <= i < j < |r| :: r[i] != r[j] && CameBefore(times, r[i], r[j])
  }

  lemma {:induction false} ByTimeIsInOrder(times: map<string, int>)
    ensures InOrder(times, ByTime(times))
    decreases |times.Keys|
  {
    if times.Keys == {} {
    } else {
      var first := First(times);
      var rest := times - {first};
      assert rest.Keys == times.Keys - {first};
      ByTimeIsInOrder(rest);
      PrependInOrder(times, first, ByTime(rest));
    }
  }

  lemma PrependInOrder(times: map<string, int>, first: string, r: seq<string>)
    requires first in times && first !in r && InOrder(times - {first}, r)
    requires forall x | x in times :: CameBefore(times, first, x)
    ensures InOrder(times, [first] + r)
  {
  }

  lemma PrefixComesFirst(times: map<string, int>, all: seq<string>, n: nat)
    requires InOrder(times, all) && n <= |all|
    ensures InOrder(times, all[..n])
    ensures forall a, b | a in all[..n] && b in all && b !in all[..n] :: CameBefore(times, a, b)
  {
    forall a, b | a in all[..n] && b in all && b !in all[..n] ensures CameBefore(times, a, b) {
      var i :| 0 <= i < n && all[..n][i] == a;
      var j :| 0 <= j < |all| && all[j] == b;
      assert all[i] == a && n <= j;
    }
  }

  /** The whole iteration of a `BTreeMap` with these keys. */
  function Sorted(keys: set<string>): (r: seq<string>)
    ensures |r| == |keys| && forall k :: k in r <==> k in keys
  {
    var times := map k | k in keys :: 0;
    assert times.Keys == keys;
    ByTime(times)
  }

  lemma SortedIsInOrder(keys: set<string>)
    ensures forall i, j | 0 <= i < j < |keys| ::
              Sorted(keys)[i] != Sorted(keys)[j] && AtMost(Sorted(keys)[i], Sorted(keys)[j])
  {
    ByTimeIsInOrder(map k | k in keys :: 0);
  }
}
