/** Types and facts about finite collections shared by the service models. */
module Basics {

  datatype Option<+T> = None | Some(value: T)

  datatype Result<+T, +E> = Ok(value: T) | Err(error: E)

  // Row identifiers are random UUIDs; the models only compare them.
  type Id = nat

  predicate Distinct<T(==)>(s: seq<T>) {
    forall i, j :: 0 <= i < j < |s| ==> s[i] != s[j]
  }

  function Last<T>(s: seq<T>): T
    requires s != []
  {
    s[|s| - 1]
  }

  function Front<T>(s: seq<T>): seq<T>
    requires s != []
  {
    s[..|s| - 1]
  }

  lemma FrontOfSnoc<T>(s: seq<T>, x: T)
    ensures Front(s + [x]) == s && Last(s + [x]) == x
  {
  }

  lemma ConcatAssoc<T>(a: seq<T>, b: seq<T>, c: seq<T>)
    ensures a + b + c == a + (b + c)
  {
  }

  function Filter<T(!new)>(keep: T -> bool, s: seq<T>): (r: seq<T>)
    ensures forall x :: x in r <==> x in s && keep(x)
    ensures |r| <= |s|
  {
    if s == [] then [] else (if keep(s[0]) then [s[0]] else []) + Filter(keep, s[1..])
  }

  lemma {:induction false} FilterKeepsAll<T(!new)>(keep: T -> bool, s: seq<T>)
    requires forall x :: x in s ==> keep(x)
    ensures Filter(keep, s) == s
  {
    if s != [] {
      FilterKeepsAll(keep, s[1..]);
    }
  }

  lemma {:induction false} FilterDropsAll<T(!new)>(keep: T -> bool, s: seq<T>)
    requires forall x :: x in s ==> !keep(x)
    ensures Filter(keep, s) == []
  {
    if s != [] {
      FilterDropsAll(keep, s[1..]);
    }
  }

  lemma {:induction false} FilterAgrees<T(!new)>(f: T -> bool, g: T -> bool, s: seq<T>)
    requires forall x :: x in s ==> f(x) == g(x)
    ensures Filter(f, s) == Filter(g, s)
  {
    if s != [] {
      assert s[0] in s && forall x :: x in s[1..] ==> x in s;
      FilterAgrees(f, g, s[1..]);
    }
  }

  lemma FilterCons<T(!new)>(keep: T -> bool, x: T, rest: seq<T>)
    ensures Filter(keep, [x] + rest) == (if keep(x) then [x] else []) + Filter(keep, rest)
  {
    assert ([x] + rest)[1..] == rest;
  }

  lemma {:induction false} FilterAppend<T(!new)>(keep: T -> bool, s: seq<T>, t: seq<T>)
    ensures Filter(keep, s + t) == Filter(keep, s) + Filter(keep, t)
  {
    if s == [] {
      assert s + t == t;
    } else {
      FilterAppend(keep, s[1..], t);
      assert s + t == [s[0]] + (s[1..] + t);
      FilterCons(keep, s[0], s[1..] + t);
      ConcatAssoc(if keep(s[0]) then [s[0]] else [], Filter(keep, s[1..]), Filter(keep, t));
    }
  }

  lemma {:induction false} FilterDistinct<T(!new)>(keep: T -> bool, s: seq<T>)
    requires Distinct(s)
    ensures Distinct(Filter(keep, s))
  {
    if s != [] {
      FilterDistinct(keep, s[1..]);
    }
  }

  /** A sequence of distinct elements of a finite set is no longer than the set is large. */
  lemma {:induction false} DistinctFits<T>(s: seq<T>, bound: set<T>)
    requires Distinct(s)
    requires forall x :: x in s ==> x in bound
    ensures |s| <= |bound|
  {
    if s != [] {
      DistinctFits(s[1..], bound - {s[0]});
    }
  }

  /** Dropping a map to a set of its values cannot produce more values than there are keys. */
  lemma {:induction false} ImageSize<K(!new), V>(keys: set<K>, f: K -> V)
    ensures |set k | k in keys :: f(k)| <= |keys|
  {
    if keys != {} {
      var k :| k in keys;
      ImageSize(keys - {k}, f);
      assert (set x | x in keys :: f(x)) == (set x | x in keys - {k} :: f(x)) + {f(k)};
    }
  }

  lemma SomeIdIsUnused(used: set<Id>)
    ensures exists id: Id :: id !in used
  {
    var bound := Above(used);
    assert bound !in used;
  }

  ghost function Above(used: set<Id>): (bound: Id)
    ensures forall id :: id in used ==> id < bound
  {
    if used == {} then 0
    else
      var id :| id in used;
      var rest := Above(used - {id});
      assert used == (used - {id}) + {id};
      if id < rest then rest else id + 1
  }
}
