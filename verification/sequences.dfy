/** The array combinators the source chains together (`filter`, `map`,
    `join`), as functions over sequences, with the facts the proofs need. */
module Sequences {

  /** `Array.prototype.filter`: the elements of `xs` satisfying `p`, in order. */
  function Filter<T(==)>(p: T -> bool, xs: seq<T>): (r: seq<T>)
    ensures |r| <= |xs|
    ensures forall i :: 0 <= i < |r| ==> r[i] in xs && p(r[i])
    ensures forall i :: 0 <= i < |xs| && p(xs[i]) ==> xs[i] in r
  {
    if xs == [] then []
    else (if p(xs[0]) then [xs[0]] else []) + Filter(p, xs[1..])
  }

  /** Filtering distributes over concatenation, so the kept elements stay
      in their original relative order. */
  lemma {:induction false} FilterConcat<T>(p: T -> bool, xs: seq<T>, ys: seq<T>)
    ensures Filter(p, xs + ys) == Filter(p, xs) + Filter(p, ys)
  {
    if xs == [] {
      assert xs + ys == ys;
    } else {
      assert (xs + ys)[1..] == xs[1..] + ys;
      FilterConcat(p, xs[1..], ys);
    }
  }

  /** A filter drops nothing exactly when every element passes. */
  lemma {:induction false} FilterKeepsAll<T>(p: T -> bool, xs: seq<T>)
    ensures Filter(p, xs) == xs <==> forall i :: 0 <= i < |xs| ==> p(xs[i])
  {
    if xs != [] {
      FilterKeepsAll(p, xs[1..]);
      if !p(xs[0]) {
        assert |Filter(p, xs)| < |xs|;
      }
    }
  }

  /** `Array.prototype.map`. */
  function Map<T, U>(f: T -> U, xs: seq<T>): (r: seq<U>)
    ensures |r| == |xs|
    ensures forall i :: 0 <= i < |xs| ==> r[i] == f(xs[i])
  {
    if xs == [] then [] else [f(xs[0])] + Map(f, xs[1..])
  }

  /** `Array.prototype.join(sep)`: the parts with `sep` between neighbours;
      the empty array joins to the empty sequence. */
  function Join<T>(parts: seq<seq<T>>, sep: seq<T>): (r: seq<T>)
    ensures |parts| == 0 ==> r == []
    ensures |parts| >= 1 ==> |r| == |Flatten(parts)| + (|parts| - 1) * |sep|
    ensures |parts| >= 1 ==> parts[0] <= r
    ensures sep == [] ==> r == Flatten(parts)
  {
    if |parts| == 0 then []
    else if |parts| == 1 then parts[0]
    else parts[0] + sep + Join(parts[1..], sep)
  }

  /** The parts concatenated with nothing in between. */
  function Flatten<T>(parts: seq<seq<T>>): seq<T>
  {
    if parts == [] then [] else parts[0] + Flatten(parts[1..])
  }

  lemma {:induction false} FlattenConcat<T>(xs: seq<seq<T>>, ys: seq<seq<T>>)
    ensures Flatten(xs + ys) == Flatten(xs) + Flatten(ys)
  {
    if xs == [] {
      assert xs + ys == ys;
    } else {
      assert (xs + ys)[1..] == xs[1..] + ys;
      FlattenConcat(xs[1..], ys);
    }
  }

  /** Joining a part in front of a non-empty list puts one separator after it. */
  lemma JoinCons<T>(x: seq<T>, parts: seq<seq<T>>, sep: seq<T>)
    requires parts != []
    ensures Join([x] + parts, sep) == x + sep + Join(parts, sep)
  {
    assert ([x] + parts)[1..] == parts;
  }

  /** Joining from the back: the last part comes after the join of the
      others and one separator. */
  lemma {:induction false} JoinLast<T>(parts: seq<seq<T>>, sep: seq<T>)
    requires |parts| >= 2
    ensures Join(parts, sep) == Join(parts[..|parts| - 1], sep) + sep + parts[|parts| - 1]
  {
    var n := |parts|;
    if n > 2 {
      JoinLast(parts[1..], sep);
      assert parts[1..][..n - 2] == parts[..n - 1][1..];
    } else {
      assert parts[..n - 1] == [parts[0]];
    }
  }

  /** Every element of a joined sequence comes from a part or from the separator. */
  lemma {:induction false} JoinElements<T>(parts: seq<seq<T>>, sep: seq<T>, q: T -> bool)
    requires forall i, j :: 0 <= i < |parts| && 0 <= j < |parts[i]| ==> q(parts[i][j])
    requires forall j :: 0 <= j < |sep| ==> q(sep[j])
    ensures forall k :: 0 <= k < |Join(parts, sep)| ==> q(Join(parts, sep)[k])
  {
    if |parts| > 1 {
      JoinElements(parts[1..], sep, q);
      var rest := Join(parts[1..], sep);
      var r := parts[0] + sep + rest;
      forall k | 0 <= k < |r| ensures q(r[k]) {
        if k < |parts[0]| {
          assert r[k] == parts[0][k];
        } else if k < |parts[0]| + |sep| {
          assert r[k] == sep[k - |parts[0]|];
        } else {
          assert r[k] == rest[k - |parts[0]| - |sep|];
        }
      }
    }
  }

  /** Two successive filters keep what one combined filter keeps. */
  lemma {:induction false} FilterFilter<T>(p: T -> bool, q: T -> bool, both: T -> bool, xs: seq<T>)
    requires forall x :: both(x) == (p(x) && q(x))
    ensures Filter(q, Filter(p, xs)) == Filter(both, xs)
  {
    if xs != [] {
      FilterFilter(p, q, both, xs[1..]);
      var head := if p(xs[0]) then [xs[0]] else [];
      FilterConcat(q, head, Filter(p, xs[1..]));
    }
  }

  /** Filtering commutes with a map that preserves the filter's verdict. */
  lemma {:induction false} FilterMap<T, U>(p: U -> bool, f: T -> U, pre: T -> bool, xs: seq<T>)
    requires forall x :: pre(x) == p(f(x))
    ensures Filter(p, Map(f, xs)) == Map(f, Filter(pre, xs))
  {
    if xs != [] {
      FilterMap(p, f, pre, xs[1..]);
      assert Map(f, xs)[1..] == Map(f, xs[1..]);
      var head := if pre(xs[0]) then [xs[0]] else [];
      MapConcat(f, head, Filter(pre, xs[1..]));
    }
  }

  lemma {:induction false} MapConcat<T, U>(f: T -> U, xs: seq<T>, ys: seq<T>)
    ensures Map(f, xs + ys) == Map(f, xs) + Map(f, ys)
  {
  }

  /** Mapping twice is mapping once with the composition. */
  lemma MapCompose<T, U, V>(f: T -> U, g: U -> V, h: T -> V, xs: seq<T>)
    requires forall x :: h(x) == g(f(x))
    ensures Map(g, Map(f, xs)) == Map(h, xs)
  {
  }

  /** Filtering each part and concatenating equals concatenating and then
      filtering. */
  lemma {:induction false} FlattenMapFilter<T>(q: T -> bool, f: seq<T> -> seq<T>, parts: seq<seq<T>>)
    requires forall x :: f(x) == Filter(q, x)
    ensures Flatten(Map(f, parts)) == Filter(q, Flatten(parts))
  {
    if parts != [] {
      FlattenMapFilter(q, f, parts[1..]);
      assert Map(f, parts)[1..] == Map(f, parts[1..]);
      FilterConcat(q, parts[0], Flatten(parts[1..]));
    }
  }

  /** Parts that a map sends to the empty sequence contribute nothing once
      flattened, so dropping them beforehand changes nothing. */
  lemma {:induction false} FlattenMapDropsEmpty<T, U>(keep: T -> bool, f: T -> seq<U>, xs: seq<T>)
    requires forall x :: !keep(x) ==> f(x) == []
    ensures Flatten(Map(f, Filter(keep, xs))) == Flatten(Map(f, xs))
  {
    if xs != [] {
      FlattenMapDropsEmpty(keep, f, xs[1..]);
      assert Map(f, xs)[1..] == Map(f, xs[1..]);
      var head := if keep(xs[0]) then [xs[0]] else [];
      MapConcat(f, head, Filter(keep, xs[1..]));
      FlattenConcat(Map(f, head), Map(f, Filter(keep, xs[1..])));
    }
  }

  /** Filtering a joined sequence with a filter that removes the whole
      separator is filtering each part and concatenating. */
  lemma {:induction false} FilterJoin<T>(q: T -> bool, f: seq<T> -> seq<T>, parts: seq<seq<T>>, sep: seq<T>)
    requires forall x :: f(x) == Filter(q, x)
    requires Filter(q, sep) == []
    ensures Filter(q, Join(parts, sep)) == Flatten(Map(f, parts))
  {
    if |parts| == 1 {
      assert Map(f, parts)[1..] == [];
    } else if |parts| > 1 {
      FilterJoin(q, f, parts[1..], sep);
      FilterAroundSeparator(q, parts[0], sep, Join(parts[1..], sep));
      FlattenMapUnfold(f, parts);
    }
  }

  lemma FilterAroundSeparator<T>(q: T -> bool, head: seq<T>, sep: seq<T>, tail: seq<T>)
    requires Filter(q, sep) == []
    ensures Filter(q, head + sep + tail) == Filter(q, head) + Filter(q, tail)
  {
    FilterConcat(q, head + sep, tail);
    FilterConcat(q, head, sep);
  }

  lemma FlattenMapUnfold<T, U>(f: T -> seq<U>, xs: seq<T>)
    requires xs != []
    ensures Flatten(Map(f, xs)) == f(xs[0]) + Flatten(Map(f, xs[1..]))
  {
    assert Map(f, xs)[1..] == Map(f, xs[1..]);
  }
}
