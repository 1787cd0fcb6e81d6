/**
 The meals a week holds and the two scans the planner performs over a week's
 list: the "is a meal with this id already there" test and the filter that
 drops every meal with a given id. Meals are compared by `id` only; the other
 recipe fields are payload the planner never looks at.
 */
module Meals {

  /** A recipe as the planner sees it: a key plus display payload. */
  datatype Meal = Meal(id: int, name: string, cuisine: string, image: string)

  /** Some meal of `ms` carries `id` (the `some` test in `addToWeek`). */
  predicate HasId(ms: seq<Meal>, id: int)
  {
    exists i | 0 <= i < |ms| :: ms[i].id == id
  }

  /** No two meals of `ms` share an id. */
  predicate UniqueIds(ms: seq<Meal>)
  {
    forall i, j | 0 <= i < j < |ms| :: ms[i].id != ms[j].id
  }

  /** `a` is `b` with some elements deleted, the survivors in their old order. */
  predicate IsSubsequence(a: seq<Meal>, b: seq<Meal>)
    decreases |b|
  {
    || a == []
    || (&& b != []
        && (|| (a[0] == b[0] && IsSubsequence(a[1..], b[1..]))
            || IsSubsequence(a, b[1..])))
  }

  /** The week list with every meal whose id is `id` filtered out. */
  function RemoveId(ms: seq<Meal>, id: int): (r: seq<Meal>)
    ensures !HasId(r, id)
    ensures forall m :: m in r <==> m in ms && m.id != id
    ensures |r| <= |ms|
  {
    if ms == [] then []
    else if ms[0].id == id then RemoveId(ms[1..], id)
    else [ms[0]] + RemoveId(ms[1..], id)
  }

  /** Filtering keeps the surviving meals in their relative order. */
  lemma {:induction false} RemoveIdIsSubsequence(ms: seq<Meal>, id: int)
    ensures IsSubsequence(RemoveId(ms, id), ms)
  {
    if ms != [] {
      RemoveIdIsSubsequence(ms[1..], id);
      var rest := RemoveId(ms[1..], id);
      if ms[0].id != id {
        assert ([ms[0]] + rest)[1..] == rest;
      } else if rest != [] {
        assert IsSubsequence(rest, ms[1..]);
      }
    }
  }

  /** Each meal keeps its multiplicity unless its id is the one removed. */
  lemma {:induction false} RemoveIdMultiset(ms: seq<Meal>, id: int, m: Meal)
    ensures multiset(RemoveId(ms, id))[m] == if m.id == id then 0 else multiset(ms)[m]
  {
    if ms != [] {
      RemoveIdMultiset(ms[1..], id, m);
      assert ms == [ms[0]] + ms[1..];
      assert multiset(ms) == multiset([ms[0]]) + multiset(ms[1..]);
    }
  }

  /** How many meals of `ms` carry `id`. */
  function CountId(ms: seq<Meal>, id: int): nat
  {
    if ms == [] then 0
    else (if ms[0].id == id then 1 else 0) + CountId(ms[1..], id)
  }

  /**
   The filter drops exactly the meals carrying `id` and no other occurrence:
   its result is a sub-multiset of the list, shorter by the number of meals
   with that id.
   */
  lemma {:induction false} RemoveIdCounts(ms: seq<Meal>, id: int)
    ensures multiset(RemoveId(ms, id)) <= multiset(ms)
    ensures |RemoveId(ms, id)| == |ms| - CountId(ms, id)
  {
    if ms != [] {
      RemoveIdCounts(ms[1..], id);
      assert ms == [ms[0]] + ms[1..];
      assert multiset(ms) == multiset([ms[0]]) + multiset(ms[1..]);
    }
  }

  /** Filtering distributes over concatenation: it acts on each meal independently. */
  lemma {:induction false} RemoveIdAppend(a: seq<Meal>, b: seq<Meal>, id: int)
    ensures RemoveId(a + b, id) == RemoveId(a, id) + RemoveId(b, id)
  {
    if a == [] {
      assert a + b == b;
    } else {
      assert (a + b)[0] == a[0];
      assert (a + b)[1..] == a[1..] + b;
      RemoveIdAppend(a[1..], b, id);
    }
  }

  /** Removing an id no meal carries leaves the list as it was. */
  lemma {:induction false} RemoveIdAbsent(ms: seq<Meal>, id: int)
    requires !HasId(ms, id)
    ensures RemoveId(ms, id) == ms
  {
    if ms != [] {
      assert ms[0].id != id;
      assert !HasId(ms[1..], id) by {
        forall i | 0 <= i < |ms[1..]|
          ensures ms[1..][i].id != id
        {
          assert ms[1..][i] == ms[i + 1];
        }
      }
      RemoveIdAbsent(ms[1..], id);
      assert [ms[0]] + ms[1..] == ms;
    }
  }

  /** Removing twice is removing once. */
  lemma RemoveIdIdempotent(ms: seq<Meal>, id: int)
    ensures RemoveId(RemoveId(ms, id), id) == RemoveId(ms, id)
  {
    RemoveIdAbsent(RemoveId(ms, id), id);
  }

  /** In a list with unique ids, removing the id found at `k` deletes exactly position `k`. */
  lemma RemoveIdAt(ms: seq<Meal>, k: int, id: int)
    requires UniqueIds(ms)
    requires 0 <= k < |ms| && ms[k].id == id
    ensures RemoveId(ms, id) == ms[..k] + ms[k + 1..]
  {
    var front, back := ms[..k], ms[k + 1..];
    assert ms == (front + [ms[k]]) + back;
    NoIdOutside(ms, k, 0, k);
    NoIdOutside(ms, k, k + 1, |ms|);
    calc {
      RemoveId(ms, id);
      { RemoveIdAppend(front + [ms[k]], back, id); }
      RemoveId(front + [ms[k]], id) + RemoveId(back, id);
      { RemoveIdAppend(front, [ms[k]], id); }
      RemoveId(front, id) + RemoveId([ms[k]], id) + RemoveId(back, id);
      { RemoveIdAbsent(front, id); RemoveIdAbsent(back, id); }
      front + RemoveId([ms[k]], id) + back;
      { assert [ms[k]][1..] == []; }
      front + back;
    }
  }

  /** Helper: with unique ids, no meal of `ms[lo..hi]` other than `ms[k]` carries its id. */
  lemma NoIdOutside(ms: seq<Meal>, k: int, lo: int, hi: int)
    requires UniqueIds(ms)
    requires 0 <= k < |ms| && 0 <= lo <= hi <= |ms| && (k < lo || hi <= k)
    ensures !HasId(ms[lo..hi], ms[k].id)
  {
    forall i | 0 <= i < hi - lo ensures ms[lo..hi][i].id != ms[k].id {
      assert ms[lo..hi][i] == ms[lo + i];
    }
  }

  /** A list whose ids are unique keeps them unique after a removal. */
  lemma {:induction false} RemoveIdKeepsUnique(ms: seq<Meal>, id: int)
    requires UniqueIds(ms)
    ensures UniqueIds(RemoveId(ms, id))
  {
    if ms != [] {
      var tail := ms[1..];
      assert UniqueIds(tail) by {
        forall i, j | 0 <= i < j < |tail| ensures tail[i].id != tail[j].id {
          assert tail[i] == ms[i + 1] && tail[j] == ms[j + 1];
        }
      }
      RemoveIdKeepsUnique(tail, id);
      var rest := RemoveId(tail, id);
      if ms[0].id != id {
        var r := [ms[0]] + rest;
        forall i, j | 0 <= i < j < |r| ensures r[i].id != r[j].id {
          assert r[j] == rest[j - 1];
          if i == 0 {
            assert r[j] in tail;
            var k :| 0 <= k < |tail| && tail[k] == r[j];
            assert ms[k + 1] == r[j];
          } else {
            assert r[i] == rest[i - 1];
          }
        }
      }
    }
  }
}
