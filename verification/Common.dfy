/** Definitions every component shares: optional values, the count of the elements of a
    sequence that satisfy a predicate, and small facts about both. */
module Common {

  datatype Option<+T> = None | Some(value: T)

  /** What a store holds under one name: nothing, bytes that are not a record of the right
      shape, or a record (whose content may still break the record's own rules). */
  datatype Slot<+T> = Absent | Corrupt | Stored(blob: T)

  /** How a record is classified when it is loaded. */
  datatype RecordState = RecordOk | RecordAbsent | RecordInvalid | RecordIoFailed

  /** A 32-byte buffer (key, seed) taken as one number: 0 is the all-zero buffer, and
      equality of numbers is equality of bytes. */
  type Key = nat

  const NUL: char := 0 as char
  const CR: char := '\r'
  const LF: char := '\n'

  /** One less, but never below zero. */
  function Pred(n: nat): nat { if n == 0 then 0 else n - 1 }

  /** A buffer of `n` equal elements. */
  function Fill<T>(n: nat, x: T): (s: seq<T>)
    ensures |s| == n && forall i :: 0 <= i < n ==> s[i] == x
  {
    seq(n, _ => x)
  }

  /** The number of elements of `s` that satisfy `p`. */
  ghost function Count<T>(s: seq<T>, p: T -> bool): nat {
    if s == [] then 0
    else Count(s[..|s| - 1], p) + if p(s[|s| - 1]) then 1 else 0
  }

  /** Replacing one element moves the count by exactly that element. */
  lemma {:induction false} CountUpdate<T>(s: seq<T>, i: nat, x: T, p: T -> bool)
    requires i < |s|
    ensures Count(s[i := x], p) + (if p(s[i]) then 1 else 0) == Count(s, p) + if p(x) then 1 else 0
  {
    var n := |s| - 1;
    if i < n {
      assert s[i := x][..n] == s[..n][i := x];
      CountUpdate(s[..n], i, x, p);
    } else {
      assert s[i := x][..n] == s[..n];
    }
  }

  /** Every element that satisfies `p` makes the count at least one. */
  lemma {:induction false} CountHas<T>(s: seq<T>, i: nat, p: T -> bool)
    requires i < |s| && p(s[i])
    ensures Count(s, p) > 0
  {
    if i < |s| - 1 {
      CountHas(s[..|s| - 1], i, p);
    }
  }

  /** A positive count has a witness, and a count below the length leaves an element out. */
  lemma {:induction false} CountWitness<T>(s: seq<T>, p: T -> bool)
    ensures Count(s, p) <= |s|
    ensures Count(s, p) > 0 ==> exists i :: 0 <= i < |s| && p(s[i])
    ensures Count(s, p) < |s| ==> exists i :: 0 <= i < |s| && !p(s[i])
  {
    if s != [] {
      var t := s[..|s| - 1];
      CountWitness(t, p);
      if i :| 0 <= i < |t| && p(t[i]) { assert p(s[i]); }
      if i :| 0 <= i < |t| && !p(t[i]) { assert !p(s[i]); }
      if p(s[|s| - 1]) { assert p(s[|s| - 1]); }
    }
  }

  /** Two sequences that agree on `p` element by element have the same count. */
  lemma {:induction false} CountAgree<S, T>(s: seq<S>, t: seq<T>, p: S -> bool, q: T -> bool)
    requires |s| == |t|
    requires forall i :: 0 <= i < |s| ==> p(s[i]) == q(t[i])
    ensures Count(s, p) == Count(t, q)
  {
    if s != [] {
      CountAgree(s[..|s| - 1], t[..|s| - 1], p, q);
    }
  }

  /** Counting one element further. */
  lemma CountNext<T>(s: seq<T>, i: nat, p: T -> bool)
    requires i < |s|
    ensures Count(s[..i + 1], p) == Count(s[..i], p) + if p(s[i]) then 1 else 0
  {
    assert s[..i + 1][..i] == s[..i];
  }
}
