/** The age order on owned resources and the oldest-first cut that a plan
    downgrade makes. Hostnames and ports are pooled and ordered together by
    creation time, then by the stable key (row id or port number); a stable sort
    that lists hostnames first breaks the remaining tie in favour of the
    hostname. */
module AgeOrder {
  import opened Prelude

  datatype Item =
    | HostItem(createdAt: int, id: int, name: string)
    | PortItem(createdAt: int, port: PortNumber)
  {
    function Key(): int {
      match this
      case HostItem(_, id, _) => id
      case PortItem(_, port) => port
    }
  }

  /** The comparison the registry sorts by: creation time, then key. */
  predicate KeyLess(a: Item, b: Item) {
    a.createdAt < b.createdAt || (a.createdAt == b.createdAt && a.Key() < b.Key())
  }

  /** The strict order that results once hostnames are listed before ports. */
  predicate Older(a: Item, b: Item) {
    || KeyLess(a, b)
    || (a.createdAt == b.createdAt && a.Key() == b.Key() && a.HostItem? && b.PortItem?)
  }

  ghost predicate TotalOn(s: set<Item>) {
    forall a, b :: a in s && b in s && a != b ==> Older(a, b) || Older(b, a)
  }

  /** How many members of `s` are older than `x`. */
  function Rank(x: Item, s: set<Item>): nat {
    |set y | y in s && Older(y, x)|
  }

  /** The `n` oldest members; a negative `n` keeps nothing. */
  function Oldest(s: set<Item>, n: int): set<Item> {
    set x | x in s && Rank(x, s) < n
  }

  /** What a cut to `n` removes. */
  function OverCap(s: set<Item>, n: int): set<Item> {
    set x | x in s && Rank(x, s) >= n
  }

  lemma RankBelow(a: Item, b: Item, s: set<Item>)
    requires a in s && Older(a, b)
    ensures Rank(a, s) < Rank(b, s)
  {
    var before := set y | y in s && Older(y, a);
    var beforeB := set y | y in s && Older(y, b);
    assert before <= beforeB && a in beforeB && a !in before;
    CardSubset(before + {a}, beforeB);
  }

  /** The youngest member of a non-empty, totally ordered set. */
  ghost function Youngest(s: set<Item>): (m: Item)
    requires s != {} && TotalOn(s)
    ensures m in s
    ensures forall x :: x in s && x != m ==> Older(x, m)
  {
    var x := Pick(s);
    var rest := s - {x};
    assert s == rest + {x};
    if rest == {} then x
    else
      var m := Youngest(rest);
      if Older(x, m) then m else x
  }

  /** Dropping the youngest member moves nobody else's rank. */
  lemma RankWithoutYoungest(s: set<Item>, m: Item, x: Item)
    requires m in s && x in s && x != m
    requires forall y :: y in s && y != m ==> Older(y, m)
    ensures Rank(x, s - {m}) == Rank(x, s)
    ensures Rank(m, s) == |s| - 1
  {
    assert (set y | y in s && Older(y, x)) == set y | y in s - {m} && Older(y, x);
    assert (set y | y in s && Older(y, m)) == s - {m};
  }

  lemma OldestWithoutYoungest(s: set<Item>, m: Item, n: int)
    requires m in s
    requires forall y :: y in s && y != m ==> Older(y, m)
    ensures Oldest(s, n) == Oldest(s - {m}, n) + (if |s| - 1 < n then {m} else {})
  {
    var rest := s - {m};
    assert Rank(m, s) == |s| - 1 by {
      assert (set y | y in s && Older(y, m)) == rest;
    }
    forall x | x in rest
      ensures x in Oldest(s, n) <==> x in Oldest(rest, n)
    {
      RankWithoutYoungest(s, m, x);
    }
  }

  lemma {:induction false} OldestCount(s: set<Item>, n: int)
    requires TotalOn(s)
    ensures |Oldest(s, n)| == Min(Max(n, 0), |s|)
    decreases |s|
  {
    if s == {} {
      assert Oldest(s, n) == {};
    } else {
      var m := Youngest(s);
      OldestCount(s - {m}, n);
      OldestWithoutYoungest(s, m, n);
      assert m !in Oldest(s - {m}, n);
    }
  }

  /** The cut is the one set of the right size that is older than what it
      removes; nothing else about the rows decides it. */
  lemma OldestIsTheOldestCut(s: set<Item>, n: int, keep: set<Item>)
    requires TotalOn(s) && keep <= s
    ensures keep == Oldest(s, n) <==>
            && |keep| == Min(Max(n, 0), |s|)
            && forall a, b :: a in keep && b in s - keep ==> Older(a, b)
  {
    var cut := Oldest(s, n);
    OldestCount(s, n);
    forall a, b | a in cut && b in s - cut
      ensures Older(a, b)
    {
      if Older(b, a) {
        RankBelow(b, a, s);
      }
    }
    if |keep| == Min(Max(n, 0), |s|) && forall a, b :: a in keep && b in s - keep ==> Older(a, b) {
      if keep != cut {
        if keep <= cut {
          CardSubset(keep, cut);
        } else if cut <= keep {
          CardSubset(cut, keep);
        } else {
          var a :| a in keep && a !in cut;
          var b :| b in cut && b !in keep;
          assert Older(a, b) && Older(b, a);
        }
      }
    }
  }

  /** Ranks survive a cut: everything older than a survivor also survives. */
  lemma RankInOldest(s: set<Item>, n: int, x: Item)
    requires x in Oldest(s, n)
    ensures Rank(x, Oldest(s, n)) == Rank(x, s)
  {
    forall y | y in s && Older(y, x)
      ensures y in Oldest(s, n)
    {
      RankBelow(y, x, s);
    }
    assert (set y | y in Oldest(s, n) && Older(y, x)) == set y | y in s && Older(y, x);
  }

  /** Cutting to `a` and then to `b` is cutting once to the smaller of the two. */
  lemma OldestCompose(s: set<Item>, a: int, b: int)
    ensures Oldest(Oldest(s, a), b) == Oldest(s, Min(a, b))
  {
    forall x | x in Oldest(s, a)
      ensures x in Oldest(Oldest(s, a), b) <==> x in Oldest(s, Min(a, b))
    {
      RankInOldest(s, a, x);
    }
  }

  /** A cut removes nothing exactly when the owner is within the limit. */
  lemma NothingOverCap(s: set<Item>, n: int)
    requires TotalOn(s)
    ensures OverCap(s, n) == {} <==> |s| <= Max(n, 0)
  {
    OldestCount(s, n);
    assert s == Oldest(s, n) + OverCap(s, n);
    assert Oldest(s, n) !! OverCap(s, n);
    assert |s| == |Oldest(s, n)| + |OverCap(s, n)|;
  }

  // ----- the stable sort -----

  /** Insertion in front of the first entry that is not smaller: entries with
      equal keys keep their relative order, as a stable sort must. */
  function Insert(x: Item, s: seq<Item>): seq<Item> {
    if s == [] then [x]
    else if !KeyLess(s[0], x) then [x] + s
    else [s[0]] + Insert(x, s[1..])
  }

  function StableSort(s: seq<Item>): seq<Item> {
    if s == [] then [] else Insert(s[0], StableSort(s[1..]))
  }

  predicate OldestFirst(s: seq<Item>) {
    forall i, j :: 0 <= i < j < |s| ==> Older(s[i], s[j])
  }

  lemma {:induction false} InsertElements(x: Item, s: seq<Item>)
    ensures Elements(Insert(x, s)) == Elements(s) + {x}
    ensures |Insert(x, s)| == |s| + 1
  {
    if s == [] || !KeyLess(s[0], x) {
    } else {
      InsertElements(x, s[1..]);
      assert s == [s[0]] + s[1..];
      assert Elements(s) == {s[0]} + Elements(s[1..]);
      assert Elements(Insert(x, s)) == {s[0]} + Elements(Insert(x, s[1..]));
    }
  }

  lemma {:induction false} InsertKeepsOldestFirst(x: Item, s: seq<Item>)
    requires OldestFirst(s)
    requires forall y :: y in s ==> KeyLess(y, x) || Older(x, y)
    ensures OldestFirst(Insert(x, s))
  {
    InsertElements(x, s);
    if s == [] {
    } else {
      if KeyLess(s[0], x) {
        InsertKeepsOldestFirst(x, s[1..]);
        InsertElements(x, s[1..]);
        var r := Insert(x, s[1..]);
        forall j | 0 <= j < |r| ensures Older(s[0], r[j]) {
          assert r[j] in Elements(r);
          if r[j] != x {
            assert r[j] in s[1..];
          }
        }
      } else {
        assert s[0] in s;
        forall j | 0 <= j < |s| ensures Older(x, s[j]) {
        }
      }
    }
  }

  /** The precondition the registry's row lists meet: a later entry that ties
      with an earlier one on the sort key is younger in the strict order. */
  ghost predicate TiesListedOldestFirst(s: seq<Item>) {
    forall i, j :: 0 <= i < j < |s| ==> KeyLess(s[j], s[i]) || Older(s[i], s[j])
  }

  lemma {:induction false} SortIsOldestFirst(s: seq<Item>)
    requires TiesListedOldestFirst(s)
    ensures OldestFirst(StableSort(s))
    ensures Elements(StableSort(s)) == Elements(s)
    ensures |StableSort(s)| == |s|
  {
    if s == [] {
    } else {
      SortIsOldestFirst(s[1..]);
      var r := StableSort(s[1..]);
      forall y | y in r ensures KeyLess(y, s[0]) || Older(s[0], y) {
        assert y in Elements(r);
        var j :| 0 <= j < |s[1..]| && s[1..][j] == y;
        assert s[j + 1] == y;
      }
      InsertKeepsOldestFirst(s[0], r);
      InsertElements(s[0], r);
      assert Elements(s) == Elements(s[1..]) + {s[0]};
    }
  }

  /** In an oldest-first listing, position is rank. */
  lemma PositionIsRank(s: seq<Item>, i: nat)
    requires OldestFirst(s) && i < |s|
    ensures Rank(s[i], Elements(s)) == i
  {
    var older := set y | y in Elements(s) && Older(y, s[i]);
    assert older == Elements(s[..i]) by {
      forall y | y in older ensures y in Elements(s[..i]) {
        var k :| 0 <= k < |s| && s[k] == y;
        assert k < i;
        assert s[..i][k] == y;
      }
    }
    CardElements(s[..i]);
  }

  lemma TailOfOldestFirst(r: seq<Item>, n: nat)
    requires OldestFirst(r) && n <= |r|
    ensures NoDuplicates(r[n..])
    ensures Elements(r[n..]) == OverCap(Elements(r), n)
  {
    forall x | x in Elements(r[n..]) ensures x in OverCap(Elements(r), n) {
      var i :| 0 <= i < |r[n..]| && r[n..][i] == x;
      assert r[n + i] == x;
      PositionIsRank(r, n + i);
    }
    forall x | x in OverCap(Elements(r), n) ensures x in Elements(r[n..]) {
      var i :| 0 <= i < |r| && r[i] == x;
      PositionIsRank(r, i);
      assert r[n..][i - n] == x;
    }
  }

  /** Skipping the first `n` entries of the sorted listing leaves exactly the
      members over the cap, whatever order the rows were listed in. */
  lemma SortedTailIsOverCap(s: seq<Item>, n: nat)
    requires TiesListedOldestFirst(s) && n <= |s|
    ensures |StableSort(s)| == |s|
    ensures NoDuplicates(StableSort(s)[n..])
    ensures Elements(StableSort(s)[n..]) == OverCap(Elements(s), n)
  {
    SortIsOldestFirst(s);
    TailOfOldestFirst(StableSort(s), n);
  }

  lemma ShortListIsWithinCap(s: seq<Item>, n: nat)
    requires TiesListedOldestFirst(s) && |s| <= n
    ensures OverCap(Elements(s), n) == {}
  {
    SortIsOldestFirst(s);
    var r := StableSort(s);
    forall x | x in Elements(r) ensures Rank(x, Elements(r)) < n {
      var i :| 0 <= i < |r| && r[i] == x;
      PositionIsRank(r, i);
    }
  }

  /** Two row listings of the same rows sort to the same sequence. */
  lemma SortIgnoresRowOrder(s: seq<Item>, t: seq<Item>)
    requires TiesListedOldestFirst(s) && TiesListedOldestFirst(t)
    requires Elements(s) == Elements(t)
    ensures StableSort(s) == StableSort(t)
  {
    SortIsOldestFirst(s);
    SortIsOldestFirst(t);
    var a, b := StableSort(s), StableSort(t);
    CardElements(a);
    CardElements(b);
    forall i | 0 <= i < |a| ensures a[i] == b[i] {
      PositionIsRank(a, i);
      assert a[i] in Elements(b);
      var j :| 0 <= j < |b| && b[j] == a[i];
      PositionIsRank(b, j);
    }
  }
}
