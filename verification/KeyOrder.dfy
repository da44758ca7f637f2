/**
  The byte order in which the key-value store iterates its keys, and the two steps
  of its iterator: seek to the first key at or after a bound, and move to the next one.
 */
module KeyOrder {
  import opened Wrappers

  /** Strict lexicographic order. */
  predicate Below(a: string, b: string) {
    && b != []
    && (a == [] || a[0] < b[0] || (a[0] == b[0] && Below(a[1..], b[1..])))
  }

  /** The keys first differ at this place, and the one is smaller there. */
  predicate SmallerAt(a: string, b: string, n: nat) {
    n < |a| && n < |b| && a[..n] == b[..n] && a[n] < b[n]
  }

  lemma SmallerBehind(a: string, b: string, n: nat)
    requires a != [] && b != [] && a[0] == b[0]
    ensures SmallerAt(a, b, n + 1) <==> SmallerAt(a[1..], b[1..], n)
  {
    if n < |a| && n < |b| {
      assert a[1..][..n] == a[..n + 1][1..] && b[1..][..n] == b[..n + 1][1..];
      assert a[..n + 1] == [a[0]] + a[1..][..n] && b[..n + 1] == [b[0]] + b[1..][..n];
    }
  }

  /** One key is below another exactly if it is a proper prefix, or smaller at the first place where they differ. */
  lemma {:induction false} BelowExactly(a: string, b: string)
    ensures Below(a, b) <==> a < b || exists n :: SmallerAt(a, b, n)
  {
    if a != [] && b != [] && a[0] == b[0] {
      BelowExactly(a[1..], b[1..]);
      assert a == [a[0]] + a[1..] && b == [b[0]] + b[1..];
      assert a < b <==> a[1..] < b[1..];
      if n: nat :| SmallerAt(a, b, n) {
        SmallerBehind(a, b, n - 1);
        assert SmallerAt(a[1..], b[1..], n - 1);
      }
      if n: nat :| SmallerAt(a[1..], b[1..], n) {
        SmallerBehind(a, b, n);
        assert SmallerAt(a, b, n + 1);
      }
      hide SmallerAt;
    } else if a != [] && b != [] && a[0] < b[0] {
      assert SmallerAt(a, b, 0);
    }
  }

  lemma {:induction false} BelowIrreflexive(a: string)
    ensures !Below(a, a)
  {
    if a != [] {
      BelowIrreflexive(a[1..]);
    }
  }

  lemma {:induction false} BelowTransitive(a: string, b: string, c: string)
    requires Below(a, b) && Below(b, c)
    ensures Below(a, c)
  {
    if a != [] && a[0] == b[0] && b[0] == c[0] {
      BelowTransitive(a[1..], b[1..], c[1..]);
    }
  }

  lemma {:induction false} BelowTotal(a: string, b: string)
    ensures a == b || Below(a, b) || Below(b, a)
  {
    if a != [] && b != [] && a[0] == b[0] {
      BelowTotal(a[1..], b[1..]);
      assert a == [a[0]] + a[1..] && b == [b[0]] + b[1..];
    }
  }

  /** A common prefix does not change the order. */
  lemma {:induction false} BelowUnderPrefix(p: string, a: string, b: string)
    ensures Below(p + a, p + b) <==> Below(a, b)
  {
    if p == [] {
      assert p + a == a && p + b == b;
    } else {
      BelowUnderPrefix(p[1..], a, b);
      assert (p + a)[1..] == p[1..] + a && (p + b)[1..] == p[1..] + b;
    }
  }

  /** The keys with a given prefix are contiguous: nothing between two of them lacks the prefix. */
  lemma {:induction false} PrefixedKeysContiguous(p: string, a: string, b: string, c: string)
    requires p <= a && p <= c
    requires a == b || Below(a, b)
    requires Below(b, c)
    ensures p <= b
  {
    if p != [] && a != b {
      assert a[0] == p[0] == c[0];
      assert b[0] == p[0];
      PrefixedKeysContiguous(p[1..], a[1..], b[1..], c[1..]);
      assert b == [b[0]] + b[1..] && p == [p[0]] + p[1..];
    }
  }

  /** A prefix is not above any key that starts with it. */
  lemma {:induction false} PrefixFirst(p: string, a: string)
    requires p <= a
    ensures p == a || Below(p, a)
  {
    if p != [] {
      PrefixFirst(p[1..], a[1..]);
      assert p == [p[0]] + p[1..] && a == [a[0]] + a[1..];
    }
  }

  /** The key lies at or after the bound; after it when `strict`. */
  predicate From(bound: string, strict: bool, k: string) {
    Below(bound, k) || (!strict && k == bound)
  }

  /** The iterator stands on the first key from the bound on, if there is one. */
  ghost predicate AtIterator(keys: set<string>, bound: string, strict: bool, it: Option<string>) {
    match it
    case None => forall k <- keys :: !From(bound, strict, k)
    case Some(key) =>
      && key in keys && From(bound, strict, key)
      && forall k <- keys | From(bound, strict, k) :: k == key || Below(key, k)
  }

  /** The iterator step: the first key at or after (or, when `strict`, after) `bound`. */
  method FirstFrom(keys: set<string>, bound: string, strict: bool) returns (first: Option<string>)
    ensures AtIterator(keys, bound, strict, first)
  {
    first := None;
    var rest := keys;
    while rest != {}
      invariant rest <= keys
      invariant first.None? ==> forall k <- keys - rest :: !From(bound, strict, k)
      invariant first.Some? ==> first.value in keys && From(bound, strict, first.value)
      invariant first.Some? ==>
                  forall k <- keys - rest | From(bound, strict, k) :: k == first.value || Below(first.value, k)
      decreases rest
    {
      var k :| k in rest;
      rest := rest - {k};
      if From(bound, strict, k) {
        if first.None? {
          first := Some(k);
        } else {
          BelowTotal(k, first.value);
          if Below(k, first.value) {
            forall x | x in keys && Below(first.value, x)
              ensures Below(k, x)
            {
              BelowTransitive(k, first.value, x);
            }
            first := Some(k);
          }
        }
      }
    }
  }

  /** What has been passed lies below what is still to come. */
  lemma Passed(bound: string, strict: bool, x: string, y: string)
    requires !From(bound, strict, x) && From(bound, strict, y)
    ensures Below(x, y)
  {
    BelowTotal(x, y);
    BelowTotal(bound, x);
    if Below(y, x) && Below(bound, y) {
      BelowTransitive(bound, y, x);
    }
    if Below(x, bound) && Below(bound, y) {
      BelowTransitive(x, bound, y);
    }
  }

  /** Moving the iterator past `key` passes exactly that key. */
  lemma StepPasses(keys: set<string>, bound: string, strict: bool, key: string)
    requires AtIterator(keys, bound, strict, Some(key))
    ensures forall k <- keys :: From(key, true, k) <==> From(bound, strict, k) && k != key
    ensures (set k <- keys | From(key, true, k)) < (set k <- keys | From(bound, strict, k))
  {
    BelowIrreflexive(key);
    forall k <- keys | Below(key, k)
      ensures From(bound, strict, k) && k != key
    {
      if Below(bound, key) {
        BelowTransitive(bound, key, k);
      }
    }
    var ahead, ahead' := set k <- keys | From(bound, strict, k), set k <- keys | From(key, true, k);
    assert ahead' == ahead - {key};
  }

  /** Strictly ascending, hence without repetition. */
  predicate Ascending(keys: seq<string>) {
    forall i, j | 0 <= i < j < |keys| :: Below(keys[i], keys[j])
  }

  /** An ascending listing of a set is unique. */
  lemma {:induction false} AscendingUnique(a: seq<string>, b: seq<string>)
    requires Ascending(a) && Ascending(b)
    requires forall k :: k in a <==> k in b
    ensures a == b
  {
    assert a != [] ==> a[0] in b;
    assert b != [] ==> b[0] in a;
    if a != [] && b != [] {
      var m, n := |a| - 1, |b| - 1;
      LastIsGreatest(a, b[n]);
      LastIsGreatest(b, a[m]);
      if a[m] != b[n] {
        BelowTransitive(a[m], b[n], a[m]);
        BelowIrreflexive(a[m]);
      }
      BelowIrreflexive(a[m]);
      assert a[m] !in a[..m] && b[n] !in b[..n];
      assert forall k :: k in a <==> k in a[..m] || k == a[m];
      assert forall k :: k in b <==> k in b[..n] || k == b[n];
      AscendingUnique(a[..m], b[..n]);
      assert a == a[..m] + [a[m]] && b == b[..n] + [b[n]];
    }
  }

  lemma LastIsGreatest(a: seq<string>, k: string)
    requires Ascending(a) && k in a
    ensures k == a[|a| - 1] || Below(k, a[|a| - 1])
  {
    var i :| 0 <= i < |a| && a[i] == k;
  }

  lemma {:induction false} Greatest(keys: set<string>) returns (last: string)
    requires keys != {}
    ensures last in keys && forall k <- keys :: k == last || Below(k, last)
  {
    last :| last in keys;
    if keys != {last} {
      assert keys - {last} != {};
      var other := Greatest(keys - {last});
      BelowTotal(last, other);
      if Below(last, other) {
        last := other;
      } else {
        forall k <- keys - {last}
          ensures Below(k, last)
        {
          if k != other {
            BelowTransitive(k, other, last);
          }
        }
      }
    }
  }

  /** Every set of keys has an ascending listing. */
  lemma {:induction false} InOrder(keys: set<string>) returns (listing: seq<string>)
    ensures Ascending(listing) && forall k :: k in listing <==> k in keys
  {
    listing := [];
    if keys != {} {
      var last := Greatest(keys);
      listing := InOrder(keys - {last});
      forall i | 0 <= i < |listing|
        ensures Below(listing[i], last)
      {
        assert listing[i] in listing;
      }
      listing := listing + [last];
    }
  }
}
