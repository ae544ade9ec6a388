/**
  The "Recent searches" list: after every successful lookup of `id` the
  screen replaces the list `prev` with `[...new Set([id, ...prev.slice(0, 4)])]`.
  `Dedup` is the `Set` round trip (first occurrences, in insertion order) and
  `Kept` is `slice(0, 4)`. Because the slice comes before the de-duplication,
  looking up an id that is already among the first four of a full list
  leaves only four entries.
 */
module History {

  /** `slice(0, 4)` keeps this many entries of the previous list. */
  const KeptEntries: nat := 4
  /** The longest list a lookup can produce: the new id plus the kept entries. */
  const MaxRecent: nat := KeptEntries + 1

  ghost predicate NoDup<T(!new)>(xs: seq<T>) {
    forall i, j :: 0 <= i < j < |xs| ==> xs[i] != xs[j]
  }

  /** The position of the first occurrence of `x` in `xs`. */
  function FirstIndex<T(==)>(xs: seq<T>, x: T): (i: nat)
    requires x in xs
    ensures i < |xs| && xs[i] == x
    ensures forall k :: 0 <= k < i ==> xs[k] != x
  {
    if xs[0] == x then 0 else 1 + FirstIndex(xs[1..], x)
  }

  /** The elements of `xs` as a JavaScript `Set` spreads them back out: each
      value once, in the order of its first insertion (see DedupFirstOrder). */
  function Dedup<T(==,!new)>(xs: seq<T>): (r: seq<T>)
    ensures NoDup(r)
    ensures forall x :: x in r <==> x in xs
    ensures |r| <= |xs|
  {
    if xs == [] then []
    else
      var d := Dedup(xs[..|xs| - 1]);
      var x := xs[|xs| - 1];
      if x in d then d else d + [x]
  }

  /** Every value of `r` occurs in `xs`, and `r` lists them in the order of
      their first occurrences in `xs`. */
  ghost predicate InFirstOrder<T(!new)>(r: seq<T>, xs: seq<T>) {
    && (forall k :: 0 <= k < |r| ==> r[k] in xs)
    && forall i, j :: 0 <= i < j < |r| ==> FirstIndex(xs, r[i]) < FirstIndex(xs, r[j])
  }

  /** The de-duplicated values come in the order of their first occurrence. */
  lemma {:induction false} DedupFirstOrder<T(!new)>(xs: seq<T>)
    ensures var r := Dedup(xs);
            forall i, j :: 0 <= i < j < |r| ==> FirstIndex(xs, r[i]) < FirstIndex(xs, r[j])
  {
    DedupInFirstOrder(xs);
  }

  lemma {:induction false} DedupInFirstOrder<T(!new)>(xs: seq<T>)
    ensures InFirstOrder(Dedup(xs), xs)
  {
    if xs != [] {
      var init := xs[..|xs| - 1];
      var x := xs[|xs| - 1];
      assert xs == init + [x];
      DedupInFirstOrder(init);
      FirstOrderWiden(Dedup(init), init, x);
      if x !in Dedup(init) {
        FirstOrderExtend(Dedup(init), init, x);
      }
    }
  }

  /** Appending to `xs` moves no first occurrence of a value already in it. */
  lemma FirstOrderWiden<T(!new)>(d: seq<T>, init: seq<T>, x: T)
    requires InFirstOrder(d, init)
    ensures InFirstOrder(d, init + [x])
  {
    forall y | y in init
      ensures FirstIndex(init + [x], y) == FirstIndex(init, y)
    {
      FirstIndexExtended(init, [x], y);
    }
  }

  /** A value seen for the first time goes after every value seen before. */
  lemma FirstOrderExtend<T(!new)>(d: seq<T>, init: seq<T>, x: T)
    requires InFirstOrder(d, init) && x !in init
    ensures InFirstOrder(d + [x], init + [x])
  {
    var xs := init + [x];
    var r := d + [x];
    FirstOrderWiden(d, init, x);
    assert FirstIndex(xs, x) == |init|;
    forall i, j | 0 <= i < j < |r|
      ensures FirstIndex(xs, r[i]) < FirstIndex(xs, r[j])
    {
      assert r[i] == d[i];
      if j < |d| {
        assert r[j] == d[j];
      }
    }
  }

  lemma FirstIndexExtended<T(!new)>(xs: seq<T>, ys: seq<T>, x: T)
    requires x in xs
    ensures FirstIndex(xs + ys, x) == FirstIndex(xs, x)
  {
    var i := FirstIndex(xs + ys, x);
    var k := FirstIndex(xs, x);
    assert (xs + ys)[k] == x;
  }

  /** `prev.slice(0, 4)`; `slice` clamps at the end of a shorter list. */
  function Kept<T>(prev: seq<T>): (k: seq<T>)
    ensures |k| <= KeptEntries
    ensures |k| == if |prev| < KeptEntries then |prev| else KeptEntries
    ensures k == prev[..|k|]
  {
    if |prev| <= KeptEntries then prev else prev[..KeptEntries]
  }

  /** The list a successful lookup of `id` leaves behind: `id` first, then
      the entries of the first four of `prev` other than `id`, in their old
      order. Nothing beyond the fourth old entry survives. */
  function UpdateRecent<T(==,!new)>(id: T, prev: seq<T>): (r: seq<T>)
    ensures |r| >= 1 && r[0] == id
    ensures NoDup(r)
    ensures |r| <= MaxRecent
    ensures forall k :: 1 <= k < |r| ==> r[k] != id && r[k] in Kept(prev)
    ensures forall x :: x in Kept(prev) ==> x in r
    ensures forall i, j :: 1 <= i < j < |r| ==> FirstIndex(Kept(prev), r[i]) < FirstIndex(Kept(prev), r[j])
  {
    DedupCons(id, Kept(prev));
    Dedup([id] + Kept(prev))
  }

  /** The `Set` built from `[x] + k` starts with `x` and then keeps the other
      values of `k` in their first-occurrence order. */
  lemma DedupCons<T(!new)>(x: T, k: seq<T>)
    ensures var r := Dedup([x] + k);
            && |r| >= 1 && r[0] == x
            && (forall m :: 1 <= m < |r| ==> r[m] != x && r[m] in k)
            && (forall y :: y in k ==> y in r)
            && forall i, j :: 1 <= i < j < |r| ==> FirstIndex(k, r[i]) < FirstIndex(k, r[j])
  {
    var xs := [x] + k;
    var r := Dedup(xs);
    DedupInFirstOrder(xs);
    assert xs[0] == x;
    assert FirstIndex(xs, x) == 0;
    assert r[0] == x by {
      var m := FirstIndex(r, x);
      assert m == 0;
    }
    forall y | y in k && y != x
      ensures FirstIndex(xs, y) == 1 + FirstIndex(k, y)
    {
      assert xs[1..] == k;
    }
    forall y | y in k ensures y in r {
      assert y in xs;
    }
  }

  /** `xs` with every occurrence of `x` removed. */
  function Without<T(==,!new)>(xs: seq<T>, x: T): (r: seq<T>)
    ensures forall y :: y in r <==> y in xs && y != x
  {
    if xs == [] then []
    else if xs[0] == x then Without(xs[1..], x)
    else [xs[0]] + Without(xs[1..], x)
  }

  lemma {:induction false} WithoutAbsent<T(!new)>(xs: seq<T>, x: T)
    requires x !in xs
    ensures Without(xs, x) == xs
  {
    if xs != [] {
      WithoutAbsent(xs[1..], x);
      assert xs == [xs[0]] + xs[1..];
    }
  }

  /** De-duplicating a list that is already duplicate-free changes nothing. */
  lemma {:induction false} DedupOfDistinct<T(!new)>(xs: seq<T>)
    requires NoDup(xs)
    ensures Dedup(xs) == xs
  {
    if xs != [] {
      var init := xs[..|xs| - 1];
      DedupOfDistinct(init);
      assert xs == init + [xs[|xs| - 1]];
    }
  }

  /** Appending values that are new and distinct extends the de-duplicated
      list by exactly those values. */
  lemma {:induction false} DedupAppendFresh<T(!new)>(ys: seq<T>, zs: seq<T>)
    requires NoDup(zs)
    requires forall k :: 0 <= k < |zs| ==> zs[k] !in ys
    ensures Dedup(ys + zs) == Dedup(ys) + zs
  {
    if zs == [] {
      assert ys + zs == ys;
    } else {
      var init := zs[..|zs| - 1];
      var z := zs[|zs| - 1];
      assert zs == init + [z];
      NoDupSplit(init, z);
      DedupAppendFresh(ys, init);
      AppendAssoc(ys, init, [z]);
      DedupSnocFresh(ys + init, z);
      AppendAssoc(Dedup(ys), init, [z]);
    }
  }

  lemma NoDupSplit<T(!new)>(init: seq<T>, z: T)
    requires NoDup(init + [z])
    ensures NoDup(init) && z !in init
  {
    var zs := init + [z];
    forall i, j | 0 <= i < j < |init| ensures init[i] != init[j] {
      assert init[i] == zs[i] && init[j] == zs[j];
    }
    forall k | 0 <= k < |init| ensures init[k] != z {
      assert init[k] == zs[k] && zs[|init|] == z;
    }
  }

  lemma DedupSnocFresh<T(!new)>(xs: seq<T>, z: T)
    requires z !in xs
    ensures Dedup(xs + [z]) == Dedup(xs) + [z]
  {
    var ws := xs + [z];
    assert ws[..|ws| - 1] == xs;
  }

  lemma {:induction false} WithoutConcat<T(!new)>(a: seq<T>, b: seq<T>, x: T)
    ensures Without(a + b, x) == Without(a, x) + Without(b, x)
  {
    if a != [] {
      WithoutConcat(a[1..], b, x);
      assert (a + b)[1..] == a[1..] + b;
      assert (a + b)[0] == a[0];
      AppendAssoc([a[0]], Without(a[1..], x), Without(b, x));
    } else {
      assert a + b == b;
    }
  }

  lemma DedupSnocPresent<T(!new)>(xs: seq<T>, z: T)
    requires z in xs
    ensures Dedup(xs + [z]) == Dedup(xs)
  {
    var ws := xs + [z];
    assert ws[..|ws| - 1] == xs;
  }

  /** Taking the element at `p` out of a duplicate-free list leaves two
      duplicate-free pieces that share nothing with it or with each other. */
  lemma NoDupAround<T(!new)>(k: seq<T>, p: nat)
    requires NoDup(k) && p < |k|
    ensures var a := k[..p]; var b := k[p + 1..];
            && k == a + [k[p]] + b
            && NoDup([k[p]] + a) && NoDup(b)
            && k[p] !in b
            && forall m :: 0 <= m < |b| ==> b[m] !in [k[p]] + a
  {
    var x := k[p];
    var a := k[..p];
    var b := k[p + 1..];
    assert k == a + [x] + b;
    forall i, j | 0 <= i < j < |b| ensures b[i] != b[j] {
      assert b[i] == k[p + 1 + i] && b[j] == k[p + 1 + j];
    }
    forall m | 0 <= m < |b| ensures b[m] != x {
      assert b[m] == k[p + 1 + m];
    }
    forall m | 0 <= m < |b| ensures b[m] !in [x] + a {
      assert b[m] == k[p + 1 + m];
    }
    var c := [x] + a;
    forall i, j | 0 <= i < j < |c| ensures c[i] != c[j] {
      if i > 0 {
        assert c[i] == k[i - 1] && c[j] == k[j - 1];
      } else {
        assert c[j] == k[j - 1];
      }
    }
  }

  /** Removing the one occurrence of `x` from `a + [x] + b`. */
  lemma WithoutOne<T(!new)>(a: seq<T>, x: T, b: seq<T>)
    requires x !in a && x !in b
    ensures Without(a + [x] + b, x) == a + b
  {
    WithoutConcat(a + [x], b, x);
    WithoutConcat(a, [x], x);
    WithoutAbsent(a, x);
    WithoutAbsent(b, x);
    WithoutSingle(x);
    assert Without(a + [x], x) == a;
  }

  lemma WithoutSingle<T(!new)>(x: T)
    ensures Without([x], x) == []
  {
    assert [x][1..] == [];
  }

  lemma NoDupKept<T(!new)>(prev: seq<T>)
    requires NoDup(prev)
    ensures NoDup(Kept(prev))
  {
    var k := Kept(prev);
    forall i, j | 0 <= i < j < |k| ensures k[i] != k[j] {
      assert k[i] == prev[i] && k[j] == prev[j];
    }
  }

  /** Over a duplicate-free list (every list the screen produces is one),
      the update is: `id`, then the first four old entries with `id` taken
      out. This is an independent description of what the `Set` does. */
  lemma RecentReference<T(!new)>(id: T, prev: seq<T>)
    requires NoDup(prev)
    ensures UpdateRecent(id, prev) == [id] + Without(Kept(prev), id)
  {
    NoDupKept(prev);
    var k := Kept(prev);
    if id in k {
      DedupConsPresent(id, k);
    } else {
      DedupConsAbsent(id, k);
    }
  }

  lemma DedupConsAbsent<T(!new)>(x: T, k: seq<T>)
    requires NoDup(k) && x !in k
    ensures Dedup([x] + k) == [x] + Without(k, x)
  {
    DedupOfDistinct([x]);
    DedupAppendFresh([x], k);
    WithoutAbsent(k, x);
  }

  lemma DedupConsPresent<T(!new)>(x: T, k: seq<T>)
    requires NoDup(k) && x in k
    ensures Dedup([x] + k) == [x] + Without(k, x)
  {
    var p := FirstIndex(k, x);
    NoDupAround(k, p);
    DedupRepeatedHead(x, k[..p], k[p + 1..]);
    WithoutOne(k[..p], x, k[p + 1..]);
    AppendAssoc([x], k[..p], k[p + 1..]);
  }

  /** The `Set` built from `[x] + a + [x] + b` drops the second `x`. */
  lemma DedupRepeatedHead<T(!new)>(x: T, a: seq<T>, b: seq<T>)
    requires NoDup([x] + a) && NoDup(b)
    requires forall k :: 0 <= k < |b| ==> b[k] !in [x] + a
    ensures Dedup([x] + (a + [x] + b)) == [x] + a + b
  {
    DedupOfDistinct([x] + a);
    DedupSnocPresent([x] + a, x);
    DedupAppendFresh([x] + a + [x], b);
    AppendAssoc([x], a + [x], b);
    AppendAssoc([x], a, [x]);
  }

  lemma AppendAssoc<T(!new)>(p: seq<T>, q: seq<T>, r: seq<T>)
    ensures p + (q + r) == (p + q) + r
  {
  }

  /** Over a duplicate-free list the update adds one entry unless `id` was
      already among the first four, in which case it keeps the count of the
      first four: a full list of five shrinks to four. */
  lemma RecentLength<T(!new)>(id: T, prev: seq<T>)
    requires NoDup(prev)
    ensures |UpdateRecent(id, prev)| == if id in Kept(prev) then |Kept(prev)| else |Kept(prev)| + 1
  {
    var k := Kept(prev);
    RecentReference(id, prev);
    NoDupKept(prev);
    if id in k {
      var p := FirstIndex(k, id);
      NoDupAround(k, p);
      WithoutOne(k[..p], id, k[p + 1..]);
    } else {
      WithoutAbsent(k, id);
    }
  }

  /** Looking up again the id at the head of the list does not leave the list
      as it was: it cuts the list down to its first four entries. */
  lemma RepeatHeadSearch<T(!new)>(id: T, prev: seq<T>)
    requires NoDup(prev)
    requires |prev| > 0 && prev[0] == id
    ensures UpdateRecent(id, prev) == Kept(prev)
  {
    var k := Kept(prev);
    RecentReference(id, prev);
    NoDupKept(prev);
    NoDupAround(k, 0);
    WithoutOne([], id, k[1..]);
    assert [] + [id] + k[1..] == k;
  }
}
