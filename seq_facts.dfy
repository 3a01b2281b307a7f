/** Small facts about sequence concatenation, shared by the inductions over
    frame lists, key lists and subscription tables. */
module SeqFacts {

  /** A non-empty left operand: the concatenation starts with its head and
      continues with its tail followed by the right operand. */
  lemma ConsAppend<T>(a: seq<T>, b: seq<T>)
    requires a != []
    ensures (a + b)[0] == a[0] && (a + b)[1..] == a[1..] + b
    ensures [a[0]] + (a[1..] + b) == a + b
  {
    assert a == [a[0]] + a[1..];
  }

  lemma EmptyAppend<T>(a: seq<T>, b: seq<T>)
    requires a == []
    ensures a + b == b
  {
  }

  lemma AppendAssoc<T>(a: seq<T>, b: seq<T>, c: seq<T>)
    ensures a + (b + c) == (a + b) + c
  {
  }

  /** Dropping the last element of a non-empty tail after a head. */
  lemma ConsDropLast<T>(a: T, p: seq<T>)
    requires |p| >= 1
    ensures var q := [a] + p; q[..|q| - 1] == [a] + p[..|p| - 1] && q[|q| - 1] == p[|p| - 1]
  {
    var q := [a] + p;
    assert q[..|q| - 1] == [a] + p[..|p| - 1];
  }

  /** Slicing a concatenation inside its left operand. */
  lemma SliceOfAppend<T>(x: seq<T>, y: seq<T>, i: nat)
    requires i + 2 <= |x|
    ensures (x + y)[..i] == x[..i] && (x + y)[i + 2..] == x[i + 2..] + y
  {
  }
}
