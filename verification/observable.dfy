/** `Observable` of `support.py`: a value cell with subscribers that are
    told the new value on every `set`. */
module Observables {
  import opened Wrappers

  /** The value (`None` until set) and the subscribers in the order they
      were first added, each once: the keys of the source's callback
      dictionary. */
  datatype Observable<K(==), T> = Observable(data: Option<T>, callbacks: seq<K>)

  /** No element occurs twice. */
  ghost predicate Distinct<K>(s: seq<K>)
  {
    forall i, j :: 0 <= i < j < |s| ==> s[i] != s[j]
  }

  /** No subscriber is registered twice. */
  ghost predicate Valid<K, T>(o: Observable<K, T>)
  {
    Distinct(o.callbacks)
  }

  /** A fresh cell: no value, no subscribers. */
  function New<K(==), T>(): (o: Observable<K, T>)
    ensures Valid(o) && o.data == None && |o.callbacks| == 0
  {
    Observable(None, [])
  }

  /** `addCallback`: registers `f`; a subscriber already registered keeps
      its place. */
  function AddCallback<K(==), T>(o: Observable<K, T>, f: K): (o': Observable<K, T>)
    requires Valid(o)
    ensures Valid(o') && o'.data == o.data
    ensures f in o'.callbacks
    ensures f in o.callbacks ==> o' == o
    ensures f !in o.callbacks ==> o'.callbacks == o.callbacks + [f]
  {
    if f in o.callbacks then o else Observable(o.data, o.callbacks + [f])
  }

  /** The subscribers other than `f`, in their order. */
  function Without<K(==)>(s: seq<K>, f: K): (r: seq<K>)
    ensures f !in r && |r| <= |s|
    ensures forall i :: 0 <= i < |r| ==> r[i] in s
  {
    if |s| == 0 then []
    else (if s[0] == f then [] else [s[0]]) + Without(s[1..], f)
  }

  /** `delCallback`: unregisters `f` if it is registered. */
  function DelCallback<K(==), T>(o: Observable<K, T>, f: K): (o': Observable<K, T>)
    requires Valid(o)
    ensures Valid(o') && o'.data == o.data
    ensures f !in o'.callbacks
    ensures forall i :: 0 <= i < |o'.callbacks| ==> o'.callbacks[i] in o.callbacks
  {
    WithoutKeepsDistinct(o.callbacks, f);
    if f in o.callbacks then Observable(o.data, Without(o.callbacks, f)) else o
  }

  /** `set`: stores the value and calls every subscriber with it, in
      registration order. The result is the new cell and the subscribers
      called. */
  function Set<K(==), T>(o: Observable<K, T>, v: T): (r: (Observable<K, T>, seq<K>))
    requires Valid(o)
    ensures Valid(r.0) && r.0.callbacks == o.callbacks
    ensures Get(r.0) == Some(v)
  {
    (Observable(Some(v), o.callbacks), o.callbacks)
  }

  /** `get`: the current value. */
  function Get<K(==), T>(o: Observable<K, T>): Option<T>
  {
    o.data
  }

  /** `unset`: clears the value without telling anyone. */
  function Unset<K(==), T>(o: Observable<K, T>): (o': Observable<K, T>)
    requires Valid(o)
    ensures Valid(o') && o'.callbacks == o.callbacks
    ensures Get(o') == None
  {
    Observable(None, o.callbacks)
  }

  /** Removing `f` keeps every other subscriber. */
  lemma {:induction false} WithoutKeeps<K>(s: seq<K>, f: K, k: K)
    requires k in s && k != f
    ensures k in Without(s, f)
    decreases |s|
  {
    if s[0] != k {
      WithoutKeeps(s[1..], f, k);
    }
  }

  /** `delCallback` of `f` removes `f` and keeps every other subscriber. */
  lemma DelCallbackKeepsOthers<K, T>(o: Observable<K, T>, f: K, k: K)
    requires Valid(o)
    ensures k in DelCallback(o, f).callbacks <==> k in o.callbacks && k != f
  {
    if k in o.callbacks && k != f && f in o.callbacks {
      WithoutKeeps(o.callbacks, f, k);
    }
  }

  lemma {:induction false} WithoutKeepsDistinct<K>(s: seq<K>, f: K)
    requires Distinct(s)
    ensures Distinct(Without(s, f))
    decreases |s|
  {
    if |s| > 0 {
      WithoutKeepsDistinct(s[1..], f);
      var t := Without(s[1..], f);
      var head: seq<K> := if s[0] == f then [] else [s[0]];
      var r := head + t;
      forall i, j | 0 <= i < j < |r|
        ensures r[i] != r[j]
      {
        if i < |head| {
          assert r[i] == s[0];
          assert r[j] == t[j - |head|];
          var k :| 0 <= k < |s[1..]| && s[1..][k] == r[j];
          assert s[1..][k] == s[k + 1];
        } else {
          assert r[i] == t[i - |head|] && r[j] == t[j - |head|];
        }
      }
    }
  }

  /** Every registered subscriber is called exactly once per `set`, and
      nothing else is called. */
  lemma SetCallsEachOnce<K, T>(o: Observable<K, T>, v: T, f: K)
    requires Valid(o)
    ensures multiset(Set(o, v).1)[f] == if f in o.callbacks then 1 else 0
  {
    DistinctCount(o.callbacks, f);
  }

  lemma {:induction false} DistinctCount<K>(s: seq<K>, f: K)
    requires Distinct(s)
    ensures multiset(s)[f] == if f in s then 1 else 0
    decreases |s|
  {
    if |s| > 0 {
      DistinctCount(s[1..], f);
      assert s == [s[0]] + s[1..];
      assert multiset(s) == multiset([s[0]]) + multiset(s[1..]);
      if s[0] == f {
        assert f !in s[1..];
      }
    }
  }

  /** The value read back is the value last set; `unset` and the
      subscriber operations do not disturb a set value. */
  lemma GetAfterSet<K, T>(o: Observable<K, T>, v: T, f: K)
    requires Valid(o)
    ensures Get(Set(o, v).0) == Some(v)
    ensures Get(AddCallback(Set(o, v).0, f)) == Some(v)
    ensures Get(DelCallback(Set(o, v).0, f)) == Some(v)
    ensures Get(Unset(Set(o, v).0)) == None
  {}

  /** Adding a subscriber twice registers it once. */
  lemma AddCallbackIdempotent<K, T>(o: Observable<K, T>, f: K)
    requires Valid(o)
    ensures AddCallback(AddCallback(o, f), f) == AddCallback(o, f)
    ensures multiset(AddCallback(AddCallback(o, f), f).callbacks)[f] == 1
  {
    DistinctCount(AddCallback(o, f).callbacks, f);
  }

  /** Removing a subscriber that is not registered changes nothing, and
      removing one that is undoes its addition. */
  lemma DelCallbackInverse<K, T>(o: Observable<K, T>, f: K)
    requires Valid(o)
    ensures f !in o.callbacks ==> DelCallback(o, f) == o
    ensures f !in o.callbacks ==> DelCallback(AddCallback(o, f), f) == o
  {
    if f !in o.callbacks {
      WithoutAbsent(o.callbacks + [f], f);
      WithoutAbsent(o.callbacks, f);
      assert Without(o.callbacks + [f], f) == Without(o.callbacks, f) + Without([f], f) by {
        WithoutAppend(o.callbacks, [f], f);
      }
    }
  }

  lemma {:induction false} WithoutAbsent<K>(s: seq<K>, f: K)
    ensures f !in s ==> Without(s, f) == s
    decreases |s|
  {
    if |s| > 0 {
      WithoutAbsent(s[1..], f);
      if f !in s {
        assert [s[0]] + s[1..] == s;
      }
    }
  }

  lemma {:induction false} WithoutAppend<K>(a: seq<K>, b: seq<K>, f: K)
    ensures Without(a + b, f) == Without(a, f) + Without(b, f)
    decreases |a|
  {
    if |a| > 0 {
      WithoutAppend(a[1..], b, f);
      assert (a + b)[1..] == a[1..] + b;
    } else {
      assert a + b == b;
    }
  }
}
