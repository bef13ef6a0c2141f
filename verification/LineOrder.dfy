/** Line numbers of a set, in increasing order. */
module LineOrder {

  import opened Sets

  predicate StrictlyIncreasing(xs: seq<int>) {
    forall i, j :: 0 <= i < j < |xs| ==> xs[i] < xs[j]
  }

  lemma FirstIsLeast(xs: seq<int>, y: int)
    requires StrictlyIncreasing(xs) && xs != [] && y in xs[1..]
    ensures xs[0] < y
  {
    var k :| 0 <= k < |xs[1..]| && xs[1..][k] == y;
    assert xs[k + 1] == y;
  }

  lemma Prepend(x: int, rest: seq<int>)
    requires StrictlyIncreasing(rest) && forall y :: y in rest ==> x < y
    ensures StrictlyIncreasing([x] + rest)
  {
    var r := [x] + rest;
    forall i, j | 0 <= i < j < |r| ensures r[i] < r[j] {
      assert r[j] == rest[j - 1] && rest[j - 1] in rest;
      assert i > 0 ==> r[i] == rest[i - 1];
    }
  }

  lemma InsertFirst(xs: seq<int>, x: int)
    requires StrictlyIncreasing(xs) && (xs == [] || x < xs[0])
    ensures StrictlyIncreasing([x] + xs)
  {
    forall y | y in xs ensures x < y {
      assert y == xs[0] || y in xs[1..];
      if y in xs[1..] {
        FirstIsLeast(xs, y);
      }
    }
    Prepend(x, xs);
  }

  lemma InsertLater(xs: seq<int>, x: int, rest: seq<int>)
    requires StrictlyIncreasing(xs) && xs != [] && xs[0] < x && StrictlyIncreasing(rest)
    requires forall y :: y in rest <==> y in xs[1..] || y == x
    ensures StrictlyIncreasing([xs[0]] + rest)
    ensures forall y :: y in [xs[0]] + rest <==> y in xs || y == x
  {
    forall y | y in rest ensures xs[0] < y {
      if y in xs[1..] {
        FirstIsLeast(xs, y);
      }
    }
    Prepend(xs[0], rest);
    assert xs == [xs[0]] + xs[1..];
  }

  function Insert(xs: seq<int>, x: int): (r: seq<int>)
    requires StrictlyIncreasing(xs) && x !in xs
    ensures StrictlyIncreasing(r)
    ensures forall y :: y in r <==> y in xs || y == x
  {
    if xs == [] || x < xs[0] then
      InsertFirst(xs, x);
      [x] + xs
    else
      InsertLater(xs, x, Insert(xs[1..], x));
      [xs[0]] + Insert(xs[1..], x)
  }

  method OrderLines(lines: set<int>) returns (r: seq<int>)
    ensures StrictlyIncreasing(r)
    ensures forall x :: x in r <==> x in lines
  {
    r := [];
    var todo := lines;
    while todo != {}
      invariant todo <= lines
      invariant StrictlyIncreasing(r)
      invariant forall x :: x in r <==> x in lines && x !in todo
    {
      var x := Pick(todo);
      r := Insert(r, x);
      todo := todo - {x};
    }
  }
}
