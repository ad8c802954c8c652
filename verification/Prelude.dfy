/** Vocabulary shared by every model in this project: options, the maximum of
    a finite set (SQL's MAX), saturating 64-bit subtraction, and the few facts
    about cardinalities that the proofs lean on. */
module Prelude {

  datatype Option<+T> = None | Some(value: T)

  type PortNumber = n: int | 0 <= n < 65536

  /** A resource a tunnel serves: a public hostname or a public TCP port. */
  datatype Resource = Host(name: string) | Port(number: PortNumber)

  const I64_MIN: int := -0x8000_0000_0000_0000
  const I64_MAX: int := 0x7fff_ffff_ffff_ffff

  function SaturatingSub(a: int, b: int): (r: int)
    ensures I64_MIN <= r <= I64_MAX
    ensures I64_MIN <= a - b <= I64_MAX ==> r == a - b
  {
    if a - b < I64_MIN then I64_MIN else if a - b > I64_MAX then I64_MAX else a - b
  }

  function Max(a: int, b: int): int {
    if a < b then b else a
  }

  function Min(a: int, b: int): int {
    if a < b then a else b
  }

  /** The elements of a sequence. */
  function Elements<T>(s: seq<T>): set<T> {
    set x | x in s
  }

  lemma ElementsAppend<T>(s: seq<T>, x: T)
    ensures Elements(s + [x]) == Elements(s) + {x}
  {
  }

  predicate NoDuplicates<T(==)>(s: seq<T>) {
    forall i, j :: 0 <= i < j < |s| ==> s[i] != s[j]
  }

  /** Some member of a non-empty set. */
  ghost function Pick<T>(s: set<T>): (x: T)
    requires s != {}
    ensures x in s
  {
    var x :| x in s;
    x
  }

  lemma {:induction false} MaxExists(s: set<int>)
    requires s != {}
    ensures exists m :: m in s && forall x :: x in s ==> x <= m
    decreases |s|
  {
    var y: int := Pick(s);
    var rest := s - {y};
    assert s == rest + {y};
    if rest == {} {
      assert y in s && forall x :: x in s ==> x <= y;
    } else {
      MaxExists(rest);
      var m :| m in rest && forall x :: x in rest ==> x <= m;
      var top := Max(m, y);
      assert top in s && forall x :: x in s ==> x <= top;
    }
  }

  /** The largest member of a non-empty finite set. */
  ghost function MaxOf(s: set<int>): (m: int)
    requires s != {}
    ensures m in s
    ensures forall x :: x in s ==> x <= m
  {
    MaxExists(s);
    var m :| m in s && forall x :: x in s ==> x <= m;
    m
  }

  lemma MaxOfInsert(s: set<int>, x: int)
    requires s != {}
    ensures MaxOf(s + {x}) == Max(MaxOf(s), x)
  {
  }

  lemma CardSubset<T>(a: set<T>, b: set<T>)
    requires a <= b
    ensures |a| <= |b|
    ensures |a| == |b| ==> a == b
  {
    assert b == a + (b - a);
    assert |b| == |a| + |b - a|;
    if |a| == |b| {
      assert b - a == {};
    }
  }

  /** The id the next row gets: one more than the largest in use. */
  ghost function FreshId(inUse: set<int>): (id: int)
    ensures forall x :: x in inUse ==> x < id
  {
    if inUse == {} then 1 else MaxOf(inUse) + 1
  }

  method AllocateId(inUse: set<int>) returns (id: int)
    ensures id == FreshId(inUse)
  {
    id := 1;
    var todo := inUse;
    ghost var seen := {};
    while todo != {}
      invariant seen == inUse - todo && todo <= inUse
      invariant id == FreshId(seen)
      decreases |todo|
    {
      ghost var some: int := Pick(todo);
      assert some in todo;
      var x :| x in todo;
      if seen != {} {
        MaxOfInsert(seen, x);
      }
      if todo == inUse || id <= x {
        id := x + 1;
      }
      todo, seen := todo - {x}, seen + {x};
    }
    assert seen == inUse;
  }

  /** Two sets in one-to-one correspondence have the same size. */
  lemma {:induction false} CardBijection<A, B>(s: set<A>, t: set<B>, f: A -> B, g: B -> A)
    requires forall x :: x in s ==> f(x) in t && g(f(x)) == x
    requires forall y :: y in t ==> g(y) in s && f(g(y)) == y
    ensures |s| == |t|
  {
    if s == {} {
      assert t == {};
    } else {
      var x :| x in s;
      CardBijection(s - {x}, t - {f(x)}, f, g);
    }
  }

  /** A sequence without repetition has as many elements as entries. */
  lemma {:induction false} CardElements<T>(s: seq<T>)
    requires NoDuplicates(s)
    ensures |Elements(s)| == |s|
  {
    if s == [] {
    } else {
      var front := s[..|s| - 1];
      CardElements(front);
      assert s == front + [s[|s| - 1]];
      assert s[|s| - 1] !in front;
      assert Elements(s) == Elements(front) + {s[|s| - 1]};
    }
  }
}
