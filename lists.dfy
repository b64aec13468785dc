/**
 * Python list operations on sequences: `index`, `remove`, filtering out one value, and
 * the loop that appends the successful results of a call per element.
 */
module Lists {
  import opened Wrappers

  /** No value occurs twice. */
  predicate Distinct<T(==)>(s: seq<T>) {
    forall i, j :: 0 <= i < j < |s| ==> s[i] != s[j]
  }

  /** The index of the first occurrence of `x`. */
  function IndexOf<T(==)>(s: seq<T>, x: T): (i: nat)
    requires x in s
    ensures i < |s| && s[i] == x && x !in s[..i]
  {
    if s[0] == x then 0 else 1 + IndexOf(s[1..], x)
  }

  /** `list.remove(x)`: the first occurrence of `x` taken out. */
  function Remove<T(==)>(s: seq<T>, x: T): seq<T>
    requires x in s
  {
    var i := IndexOf(s, x);
    s[..i] + s[i + 1..]
  }

  /** Every element other than `x`, in order. */
  function Without<T(==)>(s: seq<T>, x: T): (r: seq<T>)
    ensures |r| <= |s|
  {
    if s == [] then []
    else (if s[0] == x then [] else [s[0]]) + Without(s[1..], x)
  }

  /** In a list without repeats, removing the first occurrence removes every occurrence. */
  lemma {:induction false} RemoveIsWithout<T>(s: seq<T>, x: T)
    requires x in s && Distinct(s)
    ensures Remove(s, x) == Without(s, x)
  {
    if s[0] == x {
      WithoutAbsent(s[1..], x);
      assert Remove(s, x) == s[1..];
    } else {
      var t := s[1..];
      DropFront(s);
      RemoveIsWithout(t, x);
      var i := IndexOf(s, x);
      assert IndexOf(t, x) == i - 1;
      calc {
        Remove(s, x);
        s[..i] + s[i + 1..];
        { assert s[..i] == [s[0]] + t[..i - 1]; assert s[i + 1..] == t[i..]; }
        [s[0]] + (t[..i - 1] + t[i..]);
        [s[0]] + Remove(t, x);
        [s[0]] + Without(t, x);
        Without(s, x);
      }
    }
  }

  /** Leaving out an element that is not there changes nothing. */
  lemma {:induction false} WithoutAbsent<T>(s: seq<T>, x: T)
    requires x !in s
    ensures Without(s, x) == s
  {
    if s != [] {
      WithoutAbsent(s[1..], x);
    }
  }

  /** `Without` keeps exactly the other elements. */
  lemma {:induction false} WithoutMembers<T>(s: seq<T>, x: T)
    ensures forall k :: k in Without(s, x) <==> k in s && k != x
  {
    if s != [] {
      WithoutMembers(s[1..], x);
      assert s == [s[0]] + s[1..];
    }
  }

  /** `Without` of a list without repeats has no repeats. */
  lemma {:induction false} WithoutDistinct<T>(s: seq<T>, x: T)
    requires Distinct(s)
    ensures Distinct(Without(s, x))
  {
    if s != [] {
      var t := s[1..];
      assert Distinct(t) by {
        forall i, j | 0 <= i < j < |t|
          ensures t[i] != t[j]
        {
          assert t[i] == s[i + 1] && t[j] == s[j + 1];
        }
      }
      WithoutDistinct(t, x);
      WithoutMembers(t, x);
      assert s[0] !in t by {
        forall j | 0 <= j < |t|
          ensures t[j] != s[0]
        {
          assert t[j] == s[j + 1];
        }
      }
    }
  }

  /** Appending a new element keeps a list free of repeats. */
  lemma AppendDistinct<T>(s: seq<T>, x: T)
    requires Distinct(s) && x !in s
    ensures Distinct(s + [x])
  {
    var t := s + [x];
    forall i, j | 0 <= i < j < |t|
      ensures t[i] != t[j]
    {
      if j == |s| {
        assert t[i] == s[i];
      }
    }
  }

  /** Dropping the front of a list without repeats drops exactly that element. */
  lemma DropFront<T>(s: seq<T>)
    requires s != [] && Distinct(s)
    ensures Distinct(s[1..]) && s[0] !in s[1..]
    ensures forall k :: k in s[1..] <==> k in s && k != s[0]
  {
    var t := s[1..];
    forall i, j | 0 <= i < j < |t|
      ensures t[i] != t[j]
    {
      assert t[i] == s[i + 1] && t[j] == s[j + 1];
    }
    forall j | 0 <= j < |t|
      ensures t[j] != s[0]
    {
      assert t[j] == s[j + 1];
    }
    assert s == [s[0]] + t;
  }

  /** The first index holding `x` is the one `IndexOf` finds. */
  lemma FirstIndexUnique<T>(s: seq<T>, x: T, i: nat)
    requires i < |s| && s[i] == x && x !in s[..i]
    ensures IndexOf(s, x) == i
  {
  }

  /** A list without repeats has as many distinct elements as entries. */
  lemma {:induction false} DistinctCard<T>(s: seq<T>)
    requires Distinct(s)
    ensures |set k | k in s| == |s|
  {
    if s != [] {
      DropFront(s);
      DistinctCard(s[1..]);
      assert (set k | k in s) == (set k | k in s[1..]) + {s[0]};
    }
  }

  /** The results `f` gives for the elements of `s`, in order, the failures (`None`) left out. */
  function FilterMap<A, B>(s: seq<A>, f: A -> Option<B>): (r: seq<B>)
    ensures |r| <= |s|
    decreases |s|
  {
    if s == [] then [] else FilterMap(s[..|s| - 1], f) + Kept(f(s[|s| - 1]))
  }

  /** A result as a list of zero or one elements. */
  function Kept<B>(o: Option<B>): seq<B> {
    if o.Some? then [o.value] else []
  }

  /** Handling one more element appends its result, if it has one. */
  lemma FilterMapSnoc<A, B>(s: seq<A>, x: A, f: A -> Option<B>)
    ensures FilterMap(s + [x], f) == FilterMap(s, f) + Kept(f(x))
  {
    assert (s + [x])[..|s|] == s;
  }

  /** The results of two lists handled one after the other are the two results one after the other. */
  lemma {:induction false} FilterMapAppend<A, B>(a: seq<A>, b: seq<A>, f: A -> Option<B>)
    ensures FilterMap(a + b, f) == FilterMap(a, f) + FilterMap(b, f)
    decreases |b|
  {
    if b != [] {
      var init := b[..|b| - 1];
      var last := b[|b| - 1];
      FilterMapAppend(a, init, f);
      assert a + b == (a + init) + [last];
      assert b == init + [last];
      FilterMapSnoc(a + init, last, f);
      FilterMapSnoc(init, last, f);
    } else {
      assert a + b == a;
    }
  }

  /**
   * Every result comes from an element of the list, every element with a result
   * contributes it, and with no result for any element the list of results is empty.
   */
  lemma {:induction false} FilterMapMembers<A, B>(s: seq<A>, f: A -> Option<B>)
    ensures var r := FilterMap(s, f);
      (forall k :: 0 <= k < |r| ==> exists x :: x in s && f(x) == Some(r[k]))
      && (forall x :: x in s && f(x).Some? ==> f(x).value in r)
      && ((forall x :: x in s ==> f(x).None?) ==> r == [])
    decreases |s|
  {
    if s != [] {
      var init := s[..|s| - 1];
      var last := s[|s| - 1];
      FilterMapMembers(init, f);
      var r := FilterMap(s, f);
      var rest := FilterMap(init, f);
      forall k | 0 <= k < |r|
        ensures exists x :: x in s && f(x) == Some(r[k])
      {
        if k < |rest| {
          assert r[k] == rest[k];
          var x :| x in init && f(x) == Some(rest[k]);
          assert x in s;
        } else {
          assert f(last) == Some(r[k]);
        }
      }
      forall x | x in s && f(x).Some?
        ensures f(x).value in r
      {
        if x in init {
          assert f(x).value in rest;
        } else {
          assert x == last;
        }
      }
      if forall x :: x in s ==> f(x).None? {
        assert forall x :: x in init ==> x in s;
      }
    }
  }
}
