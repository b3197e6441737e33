/** Joining and splitting path components at a separator. */
module Paths {
  function Join<T>(parts: seq<seq<T>>, sep: T): seq<T> {
    if parts == [] then []
    else if |parts| == 1 then parts[0]
    else parts[0] + [sep] + Join(parts[1..], sep)
  }

  function Split<T(==)>(s: seq<T>, sep: T): (parts: seq<seq<T>>)
    ensures parts != [] && forall p | p in parts :: sep !in p
  {
    if s == [] then [[]]
    else if s[0] == sep then [[]] + Split(s[1..], sep)
    else
      var rest := Split(s[1..], sep);
      [[s[0]] + rest[0]] + rest[1..]
  }

  /** Splitting a component followed by a separator peels off just that component. */
  lemma {:induction false} SplitPrefix<T>(p: seq<T>, sep: T, rest: seq<T>)
    requires sep !in p
    ensures Split(p + [sep] + rest, sep) == [p] + Split(rest, sep)
  {
    var s := p + [sep] + rest;
    if p == [] {
      assert s[1..] == rest;
    } else {
      SplitPrefix(p[1..], sep, rest);
      assert s[1..] == p[1..] + [sep] + rest;
      assert [p[0]] + p[1..] == p;
      assert ([p[1..]] + Split(rest, sep))[1..] == Split(rest, sep);
    }
  }

  lemma {:induction false} SplitPlain<T>(p: seq<T>, sep: T)
    requires sep !in p
    ensures Split(p, sep) == [p]
  {
    if p != [] {
      SplitPlain(p[1..], sep);
      assert [p[0]] + p[1..] == p;
    }
  }

  /** Joining separator-free components is undone by splitting, so it is injective. */
  lemma {:induction false} SplitJoin<T>(parts: seq<seq<T>>, sep: T)
    requires parts != [] && forall p | p in parts :: sep !in p
    ensures Split(Join(parts, sep), sep) == parts
  {
    if |parts| == 1 {
      SplitPlain(parts[0], sep);
    } else {
      SplitJoin(parts[1..], sep);
      SplitPrefix(parts[0], sep, Join(parts[1..], sep));
    }
  }

  lemma JoinInjective<T>(a: seq<seq<T>>, b: seq<seq<T>>, sep: T)
    requires a != [] && forall p | p in a :: sep !in p
    requires b != [] && forall p | p in b :: sep !in p
    requires Join(a, sep) == Join(b, sep)
    ensures a == b
  {
    SplitJoin(a, sep);
    SplitJoin(b, sep);
  }

  /** Every component of a split is a contiguous slice of the string. */
  lemma {:induction false} SplitSlice<T>(s: seq<T>, sep: T, i: nat) returns (at: nat)
    requires i < |Split(s, sep)|
    ensures at + |Split(s, sep)[i]| <= |s| && s[at..at + |Split(s, sep)[i]|] == Split(s, sep)[i]
    ensures i == 0 ==> at == 0
  {
    var part := Split(s, sep)[i];
    if s == [] {
      at := 0;
    } else if s[0] == sep && i == 0 {
      at := 0;
    } else if s[0] == sep {
      var k := SplitSlice(s[1..], sep, i - 1);
      at := k + 1;
      assert s[1..][k..k + |part|] == s[at..at + |part|];
    } else {
      var k := SplitSlice(s[1..], sep, i);
      var inner := Split(s[1..], sep)[i];
      if i == 0 {
        at := 0;
        assert s[..|part|] == [s[0]] + s[1..][..|inner|];
      } else {
        at := k + 1;
        assert part == inner;
        assert s[1..][k..k + |part|] == s[at..at + |part|];
      }
    }
  }
}
