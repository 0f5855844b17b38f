/** Sequences with one element more or one less. */
module Sequences {
  predicate NoRepeats<T(==)>(q: seq<T>) {
    forall i, j :: 0 <= i < j < |q| ==> q[i] != q[j]
  }

  function Without<T>(s: seq<T>, i: nat): (r: seq<T>)
    requires i < |s|
    ensures |r| == |s| - 1
    ensures forall j :: 0 <= j < i ==> r[j] == s[j]
    ensures forall j :: i <= j < |r| ==> r[j] == s[j + 1]
  {
    s[..i] + s[i + 1..]
  }

  function With<T>(s: seq<T>, i: nat, x: T): (r: seq<T>)
    requires i <= |s|
    ensures |r| == |s| + 1 && r[i] == x
    ensures forall j :: 0 <= j < i ==> r[j] == s[j]
    ensures forall j :: i < j < |r| ==> r[j] == s[j - 1]
  {
    s[..i] + [x] + s[i..]
  }

  /** x in the place of element k, and what follows it. */
  function Onward<T>(s: seq<T>, k: nat, x: T): (r: seq<T>)
    requires k < |s|
    ensures |r| == |s| - k && r[0] == x
    ensures forall i :: 0 < i < |r| ==> r[i] == s[k + i]
  {
    [x] + s[k + 1..]
  }

  /** The same, and then on with the elements from `back` up to k. */
  function Around<T>(s: seq<T>, back: nat, k: nat, x: T): (r: seq<T>)
    requires back <= k < |s|
    ensures |r| == |s| - back && r[0] == x
    ensures forall i :: 0 < i < |s| - k ==> r[i] == s[k + i]
    ensures forall i :: |s| - k <= i < |r| ==> r[i] == s[i - (|s| - k) + back]
  {
    Onward(s, k, x) + s[back..k]
  }

  lemma OnwardNoRepeats<T>(s: seq<T>, k: nat, x: T)
    requires k < |s| && NoRepeats(s) && x !in s
    ensures NoRepeats(Onward(s, k, x)) && s[k] !in Onward(s, k, x)
    ensures forall y :: y in Onward(s, k, x) ==> y == x || y in s
  {
    hide Onward;
  }

  lemma AroundNoRepeats<T>(s: seq<T>, back: nat, k: nat, x: T)
    requires back <= k < |s| && NoRepeats(s) && x !in s
    ensures NoRepeats(Around(s, back, k, x))
    ensures forall y :: y in Around(s, back, k, x) ==> y == x || y in s
  {
    hide Around;
  }

  lemma WithoutFirst<T>(s: seq<T>)
    requires s != []
    ensures Without(s, 0) == s[1..]
  {
  }

  lemma ConcatThree<T>(p: seq<T>, q: seq<T>, r: seq<T>)
    ensures p + q + r == p + (q + r)
  {
  }

  lemma NoRepeatsSnoc<T>(q: seq<T>, x: T)
    requires NoRepeats(q) && x !in q
    ensures NoRepeats(q + [x])
  {
  }
}
