/** Options, bytes, and the few facts about concatenation and prefix sums that every other module uses. */
module Sequences {

  datatype Option<+T> = None | Some(value: T)

  newtype byte = x: int | 0 <= x < 256

  const NEWLINE: byte := 10

  /** True when the last byte of `s` is a newline; false for the empty string. */
  predicate EndsLine(s: seq<byte>) {
    |s| > 0 && s[|s| - 1] == NEWLINE
  }

  /** No element occurs twice. */
  ghost predicate Distinct<T>(s: seq<T>) {
    forall i, j :: 0 <= i < j < |s| ==> s[i] != s[j]
  }

  function Flatten<T>(parts: seq<seq<T>>): seq<T> {
    if parts == [] then [] else parts[0] + Flatten(parts[1..])
  }

  function Sum(ns: seq<nat>): nat {
    if ns == [] then 0 else ns[0] + Sum(ns[1..])
  }

  function Sizes<T>(parts: seq<seq<T>>): (ns: seq<nat>)
    ensures |ns| == |parts|
  {
    seq(|parts|, i requires 0 <= i < |parts| => |parts[i]|)
  }

  lemma Associative<T>(a: seq<T>, b: seq<T>, c: seq<T>)
    ensures (a + b) + c == a + (b + c)
  {
  }

  lemma {:induction false} FlattenConcat<T>(a: seq<seq<T>>, b: seq<seq<T>>)
    ensures Flatten(a + b) == Flatten(a) + Flatten(b)
  {
    if a == [] {
      assert a + b == b;
    } else {
      FlattenConcat(a[1..], b);
      assert (a + b)[1..] == a[1..] + b;
      Associative(a[0], Flatten(a[1..]), Flatten(b));
    }
  }

  lemma FlattenSnoc<T>(a: seq<seq<T>>, x: seq<T>)
    ensures Flatten(a + [x]) == Flatten(a) + x
  {
    FlattenConcat(a, [x]);
    assert [x][1..] == [];
  }

  lemma {:induction false} SumConcat(a: seq<nat>, b: seq<nat>)
    ensures Sum(a + b) == Sum(a) + Sum(b)
  {
    if a == [] {
      assert a + b == b;
    } else {
      SumConcat(a[1..], b);
      assert (a + b)[1..] == a[1..] + b;
    }
  }

  lemma SumSnoc(a: seq<nat>, n: nat)
    ensures Sum(a + [n]) == Sum(a) + n
  {
    SumConcat(a, [n]);
    assert [n][1..] == [];
  }

  lemma SumPrefix(ns: seq<nat>, k: nat)
    requires k < |ns|
    ensures Sum(ns[..k + 1]) == Sum(ns[..k]) + ns[k]
    ensures Sum(ns[..k + 1]) <= Sum(ns)
  {
    assert ns[..k + 1] == ns[..k] + [ns[k]];
    SumSnoc(ns[..k], ns[k]);
    assert ns == ns[..k + 1] + ns[k + 1..];
    SumConcat(ns[..k + 1], ns[k + 1..]);
  }

  lemma {:induction false} SumUpdate(ns: seq<nat>, i: nat, n: nat)
    requires i < |ns|
    ensures Sum(ns[i := n]) + ns[i] == Sum(ns) + n
  {
    if i > 0 {
      SumUpdate(ns[1..], i - 1, n);
      assert ns[i := n][1..] == ns[1..][i - 1 := n];
    }
  }

  lemma {:induction false} SumZeros(ns: seq<nat>)
    requires forall i :: 0 <= i < |ns| ==> ns[i] == 0
    ensures Sum(ns) == 0
  {
    if ns != [] {
      SumZeros(ns[1..]);
    }
  }

  lemma {:induction false} SizesSum<T>(parts: seq<seq<T>>)
    ensures Sum(Sizes(parts)) == |Flatten(parts)|
  {
    if parts == [] {
      assert Sizes(parts) == [];
    } else {
      SizesSum(parts[1..]);
      assert Sizes(parts)[1..] == Sizes(parts[1..]);
    }
  }

  lemma SizesPrefix<T>(parts: seq<seq<T>>, k: nat)
    requires k <= |parts|
    ensures Sizes(parts)[..k] == Sizes(parts[..k])
    ensures Sum(Sizes(parts)[..k]) == |Flatten(parts[..k])|
  {
    assert Sizes(parts)[..k] == Sizes(parts[..k]);
    SizesSum(parts[..k]);
  }

  /** Part `k` of a concatenation starts where the parts before it end. */
  lemma FlattenAt<T>(parts: seq<seq<T>>, k: nat)
    requires k < |parts|
    ensures Flatten(parts) == Flatten(parts[..k]) + parts[k] + Flatten(parts[k + 1..])
    ensures |Flatten(parts[..k])| + |parts[k]| <= |Flatten(parts)|
  {
    assert parts == parts[..k] + [parts[k]] + parts[k + 1..];
    FlattenConcat(parts[..k] + [parts[k]], parts[k + 1..]);
    FlattenSnoc(parts[..k], parts[k]);
  }
}
