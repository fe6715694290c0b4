/** Option, Result, machine types and two sequence functions shared by every other module. */
module Prelude {
  datatype Option<+T> = None | Some(value: T) {
    function GetOr(default: T): T {
      match this
      case Some(v) => v
      case None => default
    }
  }

  datatype Result<+T, +E> = Ok(value: T) | Err(error: E)

  type byte = b: int | 0 <= b < 0x100

  const U64_MAX: int := 0xFFFF_FFFF_FFFF_FFFF

  type u64 = n: int | 0 <= n <= U64_MAX

  function Min(a: int, b: int): int {
    if a < b then a else b
  }

  /** Checks in their order, each with the error it gives; the first that fails decides. */
  function FirstFailing<E>(checks: seq<(bool, E)>): Option<E> {
    if checks == [] then None
    else if !checks[0].0 then Some(checks[0].1)
    else FirstFailing(checks[1..])
  }

  lemma FailingFirst<E>(first: (bool, E), rest: seq<(bool, E)>)
    ensures FirstFailing([first] + rest) == if !first.0 then Some(first.1) else FirstFailing(rest)
  {
    assert ([first] + rest)[1..] == rest;
  }

  lemma FirstOfFour<E>(a: (bool, E), b: (bool, E), c: (bool, E), d: (bool, E))
    ensures FirstFailing([a, b, c, d]) ==
            if !a.0 then Some(a.1) else if !b.0 then Some(b.1) else if !c.0 then Some(c.1) else if !d.0 then Some(d.1) else None
  {
    FailingFirst(d, []);
    FailingFirst(c, [d]);
    FailingFirst(b, [c, d]);
    FailingFirst(a, [b, c, d]);
    assert [d] + [] == [d] && [c] + [d] == [c, d] && [b] + [c, d] == [b, c, d] && [a] + [b, c, d] == [a, b, c, d];
  }

  lemma FirstOfFive<E>(a: (bool, E), b: (bool, E), c: (bool, E), d: (bool, E), e: (bool, E))
    ensures FirstFailing([a, b, c, d, e]) == if !a.0 then Some(a.1) else FirstFailing([b, c, d, e])
  {
    FailingFirst(a, [b, c, d, e]);
    assert [a] + [b, c, d, e] == [a, b, c, d, e];
  }

  lemma AppendAssociates<T>(a: seq<T>, b: seq<T>, c: seq<T>)
    ensures a + (b + c) == (a + b) + c
  {}

  lemma AppendNothing<T>(s: seq<T>)
    ensures s + [] == s
  {}

  /** Concatenation of all pieces, in order. */
  function Flatten<T>(pieces: seq<seq<T>>): seq<T> {
    if pieces == [] then [] else Flatten(pieces[..|pieces| - 1]) + pieces[|pieces| - 1]
  }

  lemma FlattenSnoc<T>(pieces: seq<seq<T>>, last: seq<T>)
    ensures Flatten(pieces + [last]) == Flatten(pieces) + last
  {
    assert (pieces + [last])[..|pieces|] == pieces;
  }

  lemma {:induction false} FlattenAppend<T>(left: seq<seq<T>>, right: seq<seq<T>>)
    ensures Flatten(left + right) == Flatten(left) + Flatten(right)
    decreases |right|
  {
    if right == [] {
      assert left + right == left;
    } else {
      var init, last := right[..|right| - 1], right[|right| - 1];
      assert right == init + [last];
      AppendAssociates(left, init, [last]);
      FlattenSnoc(left + init, last);
      FlattenAppend(left, init);
      AppendAssociates(Flatten(left), Flatten(init), last);
    }
  }
}
