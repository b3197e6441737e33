/** Code-point order on strings and sorting by a string key. */
module Ordering {
  predicate Less(a: string, b: string) {
    b != "" && (a == "" || a[0] < b[0] || (a[0] == b[0] && Less(a[1..], b[1..])))
  }

  lemma {:induction false} LessIrreflexive(a: string)
    ensures !Less(a, a)
  {
    if a != "" {
      LessIrreflexive(a[1..]);
    }
  }

  lemma {:induction false} LessTransitive(a: string, b: string, c: string)
    requires Less(a, b) && Less(b, c)
    ensures Less(a, c)
  {
    if a != "" && a[0] == b[0] == c[0] {
      LessTransitive(a[1..], b[1..], c[1..]);
    }
  }

  lemma {:induction false} LessTotal(a: string, b: string)
    ensures Less(a, b) || a == b || Less(b, a)
  {
    if a != "" && b != "" && a[0] == b[0] {
      LessTotal(a[1..], b[1..]);
      assert a == [a[0]] + a[1..] && b == [b[0]] + b[1..];
    }
  }

  /** The key of names sorted as they are. */
  function Identity(s: string): string {
    s
  }

  ghost predicate SortedBy<T>(xs: seq<T>, key: T -> string) {
    forall i, j | 0 <= i < j < |xs| :: !Less(key(xs[j]), key(xs[i]))
  }

  ghost predicate StrictlySortedBy<T>(xs: seq<T>, key: T -> string) {
    forall i, j | 0 <= i < j < |xs| :: Less(key(xs[i]), key(xs[j]))
  }

  function Insert<T>(x: T, xs: seq<T>, key: T -> string): seq<T> {
    if xs == [] || Less(key(x), key(xs[0])) then [x] + xs
    else [xs[0]] + Insert(x, xs[1..], key)
  }

  function Sort<T>(xs: seq<T>, key: T -> string): seq<T> {
    if xs == [] then [] else Insert(xs[0], Sort(xs[1..], key), key)
  }

  lemma {:induction false} InsertMembers<T>(x: T, xs: seq<T>, key: T -> string)
    ensures multiset(Insert(x, xs, key)) == multiset(xs) + multiset{x}
  {
    if xs != [] && !Less(key(x), key(xs[0])) {
      InsertMembers(x, xs[1..], key);
      assert xs == [xs[0]] + xs[1..];
    }
  }

  lemma {:induction false} SortMembers<T>(xs: seq<T>, key: T -> string)
    ensures multiset(Sort(xs, key)) == multiset(xs)
  {
    if xs != [] {
      SortMembers(xs[1..], key);
      InsertMembers(xs[0], Sort(xs[1..], key), key);
      assert xs == [xs[0]] + xs[1..];
    }
  }

  lemma {:induction false} InsertSorted<T>(x: T, xs: seq<T>, key: T -> string)
    requires SortedBy(xs, key)
    ensures SortedBy(Insert(x, xs, key), key)
  {
    hide Less;
    if xs != [] {
      if Less(key(x), key(xs[0])) {
        InsertFirst(x, xs, key);
      } else {
        InsertSorted(x, xs[1..], key);
        InsertMembers(x, xs[1..], key);
        var r, rest := Insert(x, xs, key), Insert(x, xs[1..], key);
        forall j | 0 < j < |r| ensures !Less(key(r[j]), key(xs[0])) {
          assert r[j] == rest[j - 1] && rest[j - 1] in multiset(rest);
          assert r[j] == x || r[j] in multiset(xs[1..]);
        }
        assert forall i | 0 < i < |r| :: r[i] == rest[i - 1];
      }
    }
  }

  lemma InsertFirst<T>(x: T, xs: seq<T>, key: T -> string)
    requires SortedBy(xs, key) && xs != [] && Less(key(x), key(xs[0]))
    ensures SortedBy([x] + xs, key)
  {
    hide Less;
    var r := [x] + xs;
    forall j | 0 < j < |r| ensures !Less(key(r[j]), key(x)) {
      assert r[j] == xs[j - 1];
      if Less(key(r[j]), key(x)) {
        LessTransitive(key(r[j]), key(x), key(xs[0]));
        LessIrreflexive(key(xs[0]));
      }
    }
  }

  lemma {:induction false} SortSorted<T>(xs: seq<T>, key: T -> string)
    ensures SortedBy(Sort(xs, key), key)
  {
    if xs != [] {
      SortSorted(xs[1..], key);
      InsertSorted(xs[0], Sort(xs[1..], key), key);
    }
  }

  /** With distinct keys, sorted means strictly sorted. */
  lemma DistinctStrict<T>(xs: seq<T>, key: T -> string)
    requires SortedBy(xs, key) && forall i, j | 0 <= i < j < |xs| :: key(xs[i]) != key(xs[j])
    ensures StrictlySortedBy(xs, key)
  {
    forall i, j | 0 <= i < j < |xs| ensures Less(key(xs[i]), key(xs[j])) {
      LessTotal(key(xs[i]), key(xs[j]));
    }
  }

  /** A set has only one strictly sorted enumeration. */
  lemma {:induction false} StrictlySortedUnique<T>(xs: seq<T>, ys: seq<T>, key: T -> string)
    requires StrictlySortedBy(xs, key) && StrictlySortedBy(ys, key)
    requires forall x :: x in xs <==> x in ys
    ensures xs == ys
  {
    assert ys != [] ==> ys[0] in ys;
    if xs != [] {
      assert xs[0] in ys && ys[0] in xs;
      SameHead(xs, ys, key);
      forall x ensures x in xs[1..] <==> x in ys[1..] {
        TailMember(xs, x, key);
        TailMember(ys, x, key);
      }
      StrictlySortedUnique(xs[1..], ys[1..], key);
      assert xs == [xs[0]] + xs[1..] && ys == [ys[0]] + ys[1..];
    }
  }

  lemma SameHead<T>(xs: seq<T>, ys: seq<T>, key: T -> string)
    requires xs != [] && ys != [] && xs[0] in ys && ys[0] in xs
    requires StrictlySortedBy(xs, key) && StrictlySortedBy(ys, key)
    ensures xs[0] == ys[0]
  {
    var i :| 0 <= i < |ys| && ys[i] == xs[0];
    var j :| 0 <= j < |xs| && xs[j] == ys[0];
    if i > 0 && j > 0 {
      LessTransitive(key(xs[0]), key(xs[j]), key(ys[i]));
      LessIrreflexive(key(xs[0]));
    }
  }

  lemma TailMember<T>(xs: seq<T>, x: T, key: T -> string)
    requires xs != [] && StrictlySortedBy(xs, key)
    ensures x in xs[1..] <==> x in xs && x != xs[0]
  {
    if x in xs[1..] {
      var i :| 0 <= i < |xs[1..]| && xs[1..][i] == x;
      assert Less(key(xs[0]), key(xs[i + 1]));
      LessIrreflexive(key(x));
    }
    if x in xs && x != xs[0] {
      var i :| 0 <= i < |xs| && xs[i] == x;
      assert xs[1..][i - 1] == x;
    }
  }

  // ------------------------------------------------------------------ sequences without repetition

  ghost predicate Distinct<T>(xs: seq<T>) {
    forall i, j | 0 <= i < j < |xs| :: xs[i] != xs[j]
  }

  lemma SameMembers<T>(a: seq<T>, b: seq<T>)
    requires multiset(a) == multiset(b)
    ensures forall x :: x in a <==> x in b
  {
    forall x ensures x in a <==> x in b {
      assert x in a <==> x in multiset(a);
      assert x in b <==> x in multiset(b);
    }
  }

  lemma DistinctStep<T>(init: seq<T>, last: T)
    ensures Distinct(init + [last]) <==> Distinct(init) && last !in init
  {
    var xs := init + [last];
    assert forall i | 0 <= i < |init| :: xs[i] == init[i];
    assert xs[|init|] == last;
    if Distinct(xs) {
      forall i, j | 0 <= i < j < |init| ensures init[i] != init[j] {
        assert xs[i] != xs[j];
      }
      forall i | 0 <= i < |init| ensures init[i] != last {
        assert xs[i] != xs[|init|];
      }
    }
  }

  lemma {:induction false} DistinctIffMultiset<T>(xs: seq<T>)
    ensures Distinct(xs) <==> forall x | x in multiset(xs) :: multiset(xs)[x] == 1
    decreases |xs|
  {
    hide Distinct;
    if xs == [] {
      NothingRepeats<T>();
    } else {
      var init, last := xs[..|xs| - 1], xs[|xs| - 1];
      DistinctStep(init, last);
      DistinctIffMultiset(init);
      assert xs == init + [last];
      assert last in init <==> last in multiset(init);
      if last in multiset(init) {
        assert last in multiset(xs) && multiset(xs)[last] > 1;
      } else if x :| x in multiset(init) && multiset(init)[x] != 1 {
        assert x in multiset(xs) && multiset(xs)[x] != 1;
      }
    }
  }

  lemma NothingRepeats<T>()
    ensures Distinct<T>([])
  {
  }

  lemma DistinctPermuted<T>(xs: seq<T>, ys: seq<T>)
    requires multiset(xs) == multiset(ys) && Distinct(xs)
    ensures Distinct(ys)
  {
    DistinctIffMultiset(xs);
    DistinctIffMultiset(ys);
  }

  lemma {:induction false} DistinctSize<T>(xs: seq<T>)
    requires Distinct(xs)
    ensures |set x | x in xs| == |xs|
  {
    if xs != [] {
      var front, last := xs[..|xs| - 1], xs[|xs| - 1];
      DistinctSize(front);
      assert xs == front + [last];
      assert (set x | x in xs) == (set x | x in front) + {last};
    }
  }

  // ------------------------------------------------------------------ what the order is

  /** Where `a` and `b` part: `a` ends there, or has the smaller character. */
  ghost predicate PartsAt(a: string, b: string, k: nat) {
    && k <= |a| && k < |b| && a[..k] == b[..k] && (k == |a| || (k < |a| && a[k] < b[k]))
  }

  /** Less is less in the dictionary. */
  lemma {:induction false} LessIff(a: string, b: string)
    ensures Less(a, b) <==> exists k :: PartsAt(a, b, k)
  {
    if a == "" || b == "" || a[0] != b[0] {
      if Less(a, b) {
        assert PartsAt(a, b, 0);
      }
      if k: nat :| PartsAt(a, b, k) {
        assert k > 0 ==> a[..k][0] == b[..k][0];
      }
    } else {
      LessIff(a[1..], b[1..]);
      if k: nat :| PartsAt(a[1..], b[1..], k) {
        assert a[..k + 1] == [a[0]] + a[1..][..k] && b[..k + 1] == [b[0]] + b[1..][..k];
        assert PartsAt(a, b, k + 1);
      }
      if k: nat :| PartsAt(a, b, k) {
        assert k > 0;
        assert a[1..][..k - 1] == a[..k][1..] && b[1..][..k - 1] == b[..k][1..];
        assert PartsAt(a[1..], b[1..], k - 1);
      }
    }
  }
}
