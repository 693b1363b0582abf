/**
  Order-preserving removal of duplicates, the effect of `[...new Set(xs)]`:
  a JavaScript `Set` iterates in insertion order and inserting an element
  already present changes nothing, so each value is kept at its first
  occurrence.
 */
module Deduplication {
  import opened Sequences

  /** No value occurs twice. */
  predicate NoDup<T(==)>(xs: seq<T>) {
    forall i, j :: 0 <= i < j < |xs| ==> xs[i] != xs[j]
  }

  /** The elements of `r` appear in the order of their first occurrences
      in `xs`. */
  ghost predicate InFirstOccurrenceOrder<T>(r: seq<T>, xs: seq<T>) {
    forall i, j :: 0 <= i < j < |r| ==> FirstIndex(xs, r[i]) < FirstIndex(xs, r[j])
  }

  /** `r` is a duplicate-free listing of exactly the values of `xs`, in
      first-occurrence order. */
  ghost predicate IsDedupeOf<T>(r: seq<T>, xs: seq<T>) {
    && NoDup(r)
    && (forall i :: 0 <= i < |r| ==> r[i] in xs)
    && (forall i :: 0 <= i < |xs| ==> xs[i] in r)
    && InFirstOccurrenceOrder(r, xs)
  }

  /** The values of `xs`, each kept at its first occurrence, in order. It
      follows a left-to-right pass that inserts into an insertion-ordered
      set. */
  function Dedupe<T(==)>(xs: seq<T>): (r: seq<T>)
    ensures IsDedupeOf(r, xs)
  {
    if |xs| == 0 then []
    else
      var p, x := xs[..|xs| - 1], xs[|xs| - 1];
      assert xs == p + [x];
      var d := Dedupe(p);
      DedupeStep(d, p, x);
      if x in d then d else d + [x]
  }

  /** One insertion into the insertion-ordered set keeps the listing a
      first-occurrence dedupe of the values seen so far. */
  lemma DedupeStep<T>(d: seq<T>, p: seq<T>, x: T)
    requires IsDedupeOf(d, p)
    ensures IsDedupeOf(if x in d then d else d + [x], p + [x])
  {
    FirstIndexSnocAll(p, x, d);
    if x in d {
      DedupeStepPresent(d, p, x);
    } else {
      DedupeStepNew(d, p, x);
    }
  }

  lemma DedupeStepPresent<T>(d: seq<T>, p: seq<T>, x: T)
    requires IsDedupeOf(d, p) && x in d
    requires forall y :: y in d ==> FirstIndex(p + [x], y) == FirstIndex(p, y)
    ensures IsDedupeOf(d, p + [x])
  {
    var q := p + [x];
    forall i | 0 <= i < |q| ensures q[i] in d {
      if i < |p| { assert q[i] == p[i]; }
    }
    forall i | 0 <= i < |d| ensures d[i] in q {
      assert d[i] in p;
    }
  }

  lemma DedupeStepNew<T>(d: seq<T>, p: seq<T>, x: T)
    requires IsDedupeOf(d, p) && x !in d
    requires forall y :: y in d ==> FirstIndex(p + [x], y) == FirstIndex(p, y)
    ensures IsDedupeOf(d + [x], p + [x])
  {
    var q, e := p + [x], d + [x];
    assert x !in p by {
      assert forall i :: 0 <= i < |p| ==> p[i] in d;
    }
    FirstIndexAt(q, x, |p|);
    forall i | 0 <= i < |q| ensures q[i] in e {
      if i < |p| { assert q[i] == p[i]; }
    }
    forall i | 0 <= i < |e| ensures e[i] in q {
      if i < |d| { assert e[i] == d[i]; }
    }
    NewLastInOrder(d, p, x);
  }

  lemma NewLastInOrder<T>(d: seq<T>, p: seq<T>, x: T)
    requires InFirstOccurrenceOrder(d, p)
    requires forall i :: 0 <= i < |d| ==> d[i] in p
    requires forall y :: y in d ==> FirstIndex(p + [x], y) == FirstIndex(p, y)
    requires FirstIndex(p + [x], x) == |p|
    ensures InFirstOccurrenceOrder(d + [x], p + [x])
  {
    var q, e := p + [x], d + [x];
    forall i, j | 0 <= i < j < |e| ensures FirstIndex(q, e[i]) < FirstIndex(q, e[j]) {
      assert e[i] == d[i] && d[i] in d;
      assert FirstIndex(q, e[i]) == FirstIndex(p, d[i]) < |p|;
      if j < |d| {
        assert e[j] == d[j] && d[j] in d;
        assert FirstIndex(q, e[j]) == FirstIndex(p, d[j]);
      } else {
        assert e[j] == x;
      }
    }
  }

  /** Appending to `xs` does not move the first occurrences of the values
      `d` lists from `xs`. */
  lemma FirstIndexSnocAll<T>(xs: seq<T>, x: T, d: seq<T>)
    requires forall y :: y in d ==> y in xs
    ensures forall y :: y in d ==> FirstIndex(xs + [x], y) == FirstIndex(xs, y)
  {
    forall y | y in d ensures FirstIndex(xs + [x], y) == FirstIndex(xs, y) {
      FirstIndexSnoc(xs, x, y);
    }
  }

  /** `Dedupe` is the only duplicate-free first-occurrence-ordered listing
      of the values of `xs`. */
  lemma DedupeUnique<T>(r: seq<T>, xs: seq<T>)
    requires IsDedupeOf(r, xs)
    ensures r == Dedupe(xs)
  {
    SameOrderedListing(r, Dedupe(xs), xs);
  }

  lemma {:induction false} SameOrderedListing<T>(a: seq<T>, b: seq<T>, xs: seq<T>)
    requires NoDup(a) && NoDup(b)
    requires forall x :: x in a <==> x in b
    requires InFirstOccurrenceOrder(a, xs) && InFirstOccurrenceOrder(b, xs)
    ensures a == b
    decreases |a|
  {
    assert b != [] ==> b[0] in a;
    if a != [] {
      assert a[0] in a;
      assert b != [];
      assert b[0] in a;
      var k :| 0 <= k < |a| && a[k] == b[0];
      var m :| 0 <= m < |b| && b[m] == a[0];
      assert a[0] == b[0];
      forall x ensures x in a[1..] <==> x in b[1..] {
        DropHead(a, x);
        DropHead(b, x);
      }
      SameOrderedListing(a[1..], b[1..], xs);
      assert a == [a[0]] + a[1..] && b == [b[0]] + b[1..];
    }
  }

  lemma DropHead<T>(a: seq<T>, x: T)
    requires NoDup(a) && a != []
    ensures x in a[1..] <==> x in a && x != a[0]
  {
    if x in a[1..] {
      var k :| 0 <= k < |a[1..]| && a[1..][k] == x;
      assert a[k + 1] == x;
    }
    if x in a && x != a[0] {
      var k :| 0 <= k < |a| && a[k] == x;
      assert a[1..][k - 1] == x;
    }
  }

  /** Appending values never reorders or drops what was already listed. */
  lemma {:induction false} DedupePrefix<T>(xs: seq<T>, ys: seq<T>)
    ensures Dedupe(xs) <= Dedupe(xs + ys)
    decreases |ys|
  {
    if ys != [] {
      var ys', y := ys[..|ys| - 1], ys[|ys| - 1];
      assert xs + ys == (xs + ys') + [y];
      DedupeSnoc(xs + ys', y);
      DedupePrefix(xs, ys');
    } else {
      assert xs + ys == xs;
    }
  }

  /** Appending one value lists it at the end when it is new and changes
      nothing when it is already present. */
  lemma DedupeSnoc<T>(xs: seq<T>, x: T)
    ensures x in xs ==> Dedupe(xs + [x]) == Dedupe(xs)
    ensures x !in xs ==> Dedupe(xs + [x]) == Dedupe(xs) + [x]
  {
    assert (xs + [x])[..|xs|] == xs;
  }

  /** `[...new Set(items)]`: one pass, a set of values seen so far and the
      listing in insertion order. */
  method SpreadSet<T(==)>(items: seq<T>) returns (unique: seq<T>)
    ensures unique == Dedupe(items)
  {
    var seen: set<T> := {};
    unique := [];
    var i := 0;
    while i < |items|
      invariant 0 <= i <= |items|
      invariant unique == Dedupe(items[..i])
      invariant forall x :: x in seen <==> x in unique
    {
      var x := items[i];
      assert items[..i + 1] == items[..i] + [x];
      DedupeSnoc(items[..i], x);
      if x !in seen {
        seen := seen + {x};
        unique := unique + [x];
      }
      i := i + 1;
    }
    assert items[..i] == items;
  }
}
