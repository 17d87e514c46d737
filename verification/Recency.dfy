/** Least-recently-used replacement as a mathematical object: what a set holds
    after a history of accesses, and the laws an LRU cache is used for.  Nothing
    here mentions ways, lines or tags. */
module Recency {
  import Counting

  /** A memory block, named by its number. */
  type Block = int

  ghost predicate Distinct<T(!new)>(s: seq<T>) {
    forall i, j | 0 <= i < j < |s| :: s[i] != s[j]
  }

  function Take<T>(s: seq<T>, n: nat): (r: seq<T>)
    ensures |r| <= n && |r| <= |s|
  {
    if |s| <= n then s else s[..n]
  }

  /** s with the first occurrence of x removed. */
  function Without(s: seq<Block>, x: Block): (r: seq<Block>)
    ensures x !in s ==> r == s
    ensures x in s ==> |r| == |s| - 1
  {
    if s == [] then [] else if s[0] == x then s[1..] else [s[0]] + Without(s[1..], x)
  }

  /** One LRU access to a set of capacity n: the touched block moves to the front. */
  function Touch(s: seq<Block>, x: Block, n: nat): seq<Block> {
    Take([x] + Without(s, x), n)
  }

  /** The blocks of a history, most recently used first, each once. */
  function MostRecent(h: seq<Block>): seq<Block> {
    if h == [] then []
    else [h[|h| - 1]] + Without(MostRecent(h[..|h| - 1]), h[|h| - 1])
  }

  /** The accesses of a history that fall into set s of n. */
  function InSet(h: seq<Block>, s: nat, n: nat): seq<Block>
    requires n > 0
  {
    if h == [] then []
    else InSet(h[..|h| - 1], s, n) + (if h[|h| - 1] % n == s then [h[|h| - 1]] else [])
  }

  /** What every set holds after a history, one access at a time. */
  function SetsAfter(h: seq<Block>, n: nat, ways: nat): (r: seq<seq<Block>>)
    requires n > 0
    ensures |r| == n
  {
    if h == [] then seq(n, _ => [])
    else
      var sets := SetsAfter(h[..|h| - 1], n, ways);
      var x := h[|h| - 1];
      sets[x % n := Touch(sets[x % n], x, ways)]
  }

  /** Whether the next access, to x, would hit. */
  predicate Hits(h: seq<Block>, x: Block, n: nat, ways: nat)
    requires n > 0
  {
    x in SetsAfter(h, n, ways)[x % n]
  }

  function Misses(h: seq<Block>, n: nat, ways: nat): (r: nat)
    requires n > 0
    ensures r <= |h|
  {
    if h == [] then 0
    else
      var before := h[..|h| - 1];
      Misses(before, n, ways) + (if Hits(before, h[|h| - 1], n, ways) then 0 else 1)
  }

  // ---------------------------------------------------------- lists and removal

  lemma {:induction false} WithoutParts(a: seq<Block>, x: Block, b: seq<Block>)
    requires x !in a
    ensures Without(a + [x] + b, x) == a + b
  {
    var s := a + [x] + b;
    if a == [] {
      assert s == [x] + b;
      assert s[1..] == b;
    } else {
      var tail := a[1..];
      assert a == [a[0]] + tail;
      assert s[1..] == tail + [x] + b && s[0] == a[0];
      WithoutParts(tail, x, b);
      assert a + b == [a[0]] + (tail + b);
    }
  }

  /** The position of an element of a list. */
  function IndexOf(s: seq<Block>, x: Block): (i: nat)
    requires x in s
    ensures i < |s| && s[i] == x && x !in s[..i]
  {
    if s[0] == x then 0
    else
      assert x in s[1..];
      var j := IndexOf(s[1..], x);
      assert s[..j + 1] == [s[0]] + s[1..][..j];
      j + 1
  }

  lemma {:induction false} WithoutAt(s: seq<Block>, x: Block)
    requires x in s
    ensures Without(s, x) == s[..IndexOf(s, x)] + s[IndexOf(s, x) + 1..]
  {
    var i := IndexOf(s, x);
    assert s == s[..i] + [x] + s[i + 1..];
    WithoutParts(s[..i], x, s[i + 1..]);
  }

  lemma {:induction false} DistinctCons(a: Block, t: seq<Block>)
    ensures Distinct([a] + t) <==> Distinct(t) && a !in t
    ensures forall z: Block :: z in [a] + t <==> z == a || z in t
  {
    var s := [a] + t;
    assert forall i | 0 <= i < |t| :: s[i + 1] == t[i];
    if Distinct(s) {
      forall i, j | 0 <= i < j < |t| ensures t[i] != t[j] {
        assert s[i + 1] != s[j + 1];
      }
      forall k | 0 <= k < |t| ensures t[k] != a {
        assert s[0] != s[k + 1];
      }
    }
  }

  lemma {:induction false} WithoutFacts(s: seq<Block>, x: Block)
    requires Distinct(s)
    ensures Distinct(Without(s, x)) && x !in Without(s, x)
    ensures forall y: Block :: y in Without(s, x) <==> y in s && y != x
  {
    hide Distinct;
    if s != [] {
      var tail := s[1..];
      assert s == [s[0]] + tail;
      DistinctCons(s[0], tail);
      if s[0] != x {
        WithoutFacts(tail, x);
        DistinctCons(s[0], Without(tail, x));
      }
    }
  }

  lemma {:induction false} MostRecentFacts(h: seq<Block>)
    ensures Distinct(MostRecent(h))
    ensures forall x: Block :: x in MostRecent(h) <==> x in h
  {
    if h != [] {
      var before, x := h[..|h| - 1], h[|h| - 1];
      MostRecentFacts(before);
      WithoutFacts(MostRecent(before), x);
      assert h == before + [x];
    }
  }

  lemma {:induction false} WithoutPrefix(s: seq<Block>, x: Block, n: nat)
    requires n <= |s| && x !in s[..n]
    ensures n <= |Without(s, x)| && Without(s, x)[..n] == s[..n]
  {
    if x in s {
      var i := IndexOf(s, x);
      assert forall k | 0 <= k < n :: s[..n][k] == s[k];
      WithoutAt(s, x);
    }
  }

  lemma {:induction false} WithoutWithin(s: seq<Block>, x: Block, n: nat)
    requires n <= |s| && x in s && IndexOf(s, x) < n
    ensures Without(s[..n], x) == Without(s, x)[..n - 1]
  {
    var i := IndexOf(s, x);
    WithoutAt(s, x);
    assert s[..n] == s[..i] + [x] + s[i + 1..n];
    WithoutParts(s[..i], x, s[i + 1..n]);
  }

  lemma {:induction false} TouchBeyond(s: seq<Block>, x: Block, n: nat)
    requires n < |s| && x !in s[..n]
    ensures Touch(s[..n], x, n) == Touch(s, x, n)
  {
    WithoutPrefix(s, x, n);
    hide Without;
    assert Without(s[..n], x) == s[..n];
    assert Take([x] + s[..n], n) == Take([x] + Without(s, x), n);
  }

  lemma {:induction false} TouchWithin(s: seq<Block>, x: Block, n: nat)
    requires n < |s| && x in s && IndexOf(s, x) < n
    ensures Touch(s[..n], x, n) == Touch(s, x, n)
  {
    WithoutWithin(s, x, n);
    hide Without, IndexOf;
    assert Take([x] + Without(s, x), n) == [x] + Without(s, x)[..n - 1];
  }

  /** Forgetting everything past capacity commutes with an access: what fell off
      the end never matters again. */
  lemma {:induction false} TouchOfTake(s: seq<Block>, x: Block, n: nat)
    ensures Touch(Take(s, n), x, n) == Touch(s, x, n)
  {
    hide Touch;
    if |s| > n {
      if x in s && IndexOf(s, x) < n {
        TouchWithin(s, x, n);
      } else {
        assert x !in s[..n] by {
          if x in s {
            assert s[..n] <= s[..IndexOf(s, x)];
          }
        }
        TouchBeyond(s, x, n);
      }
    }
  }

  lemma {:induction false} TakeOfTake(s: seq<Block>, a: nat, b: nat)
    requires a <= b
    ensures Take(Take(s, b), a) == Take(s, a)
  {
  }

  // -------------------------------------------------- each set is a recency list

  /** Each set holds precisely the most recently used distinct blocks of its own
      accesses, in recency order, up to its capacity. */
  lemma {:induction false} SetIsMostRecent(h: seq<Block>, s: nat, n: nat, ways: nat)
    requires s < n
    ensures SetsAfter(h, n, ways)[s] == Take(MostRecent(InSet(h, s, n)), ways)
  {
    if h != [] {
      var before, x := h[..|h| - 1], h[|h| - 1];
      SetIsMostRecent(before, s, n, ways);
      if x % n == s {
        var own := InSet(before, s, n);
        assert InSet(h, s, n) == own + [x];
        assert (own + [x])[..|own|] == own;
        TouchOfTake(MostRecent(own), x, ways);
      } else {
        assert InSet(h, s, n) == InSet(before, s, n);
      }
    }
  }

  lemma {:induction false} InSetMembers(h: seq<Block>, s: nat, n: nat)
    requires n > 0
    ensures forall x :: x in InSet(h, s, n) <==> x in h && x % n == s
  {
    if h != [] {
      InSetMembers(h[..|h| - 1], s, n);
      assert h == h[..|h| - 1] + [h[|h| - 1]];
    }
  }

  lemma {:induction false} SetFacts(h: seq<Block>, s: nat, n: nat, ways: nat)
    requires s < n
    ensures Distinct(SetsAfter(h, n, ways)[s]) && |SetsAfter(h, n, ways)[s]| <= ways
    ensures forall x | x in SetsAfter(h, n, ways)[s] :: x in h && x % n == s
  {
    var m := MostRecent(InSet(h, s, n));
    SetIsMostRecent(h, s, n, ways);
    MostRecentFacts(InSet(h, s, n));
    InSetMembers(h, s, n);
    hide MostRecent, InSet, SetsAfter;
    forall x | x in Take(m, ways) ensures x in h && x % n == s {
      assert x in m;
    }
  }

  // --------------------------------------------------------------- reuse distance

  /** The last access to x in a history that contains it. */
  function LastUse(h: seq<Block>, x: Block): (j: nat)
    requires x in h
    ensures j < |h| && h[j] == x && forall k | j < k < |h| :: h[k] != x
  {
    if h[|h| - 1] == x then |h| - 1
    else
      assert h == h[..|h| - 1] + [h[|h| - 1]];
      LastUse(h[..|h| - 1], x)
  }

  /** The distinct other blocks of x's set used since the last access to x. */
  ghost function UsedSince(h: seq<Block>, x: Block, n: nat): set<Block>
    requires n > 0 && x in h
  {
    set k | LastUse(h, x) < k < |h| && h[k] % n == x % n :: h[k]
  }

  ghost function Elements(s: seq<Block>): set<Block> {
    set x | x in s
  }

  lemma {:induction false} DistinctCount(s: seq<Block>)
    requires Distinct(s)
    ensures |Elements(s)| == |s|
  {
    if s != [] {
      var init, x := s[..|s| - 1], s[|s| - 1];
      DistinctCount(init);
      assert Elements(s) == Elements(init) + {x};
      assert x !in Elements(init);
    }
  }

  lemma {:induction false} UsedSinceStep(h: seq<Block>, x: Block, n: nat)
    requires n > 0 && |h| > 0 && h[|h| - 1] != x && x in h
    ensures x in h[..|h| - 1]
    ensures UsedSince(h, x, n)
            == UsedSince(h[..|h| - 1], x, n) + (if h[|h| - 1] % n == x % n then {h[|h| - 1]} else {})
  {
    var before, y := h[..|h| - 1], h[|h| - 1];
    assert h == before + [y];
    var j := LastUse(h, x);
    assert j < |before| && before[j] == x;
    assert LastUse(before, x) == j;
    var a, b := UsedSince(h, x, n), UsedSince(before, x, n) + (if y % n == x % n then {y} else {});
    forall z | z in a ensures z in b {
      var k :| j < k < |h| && h[k] % n == x % n && h[k] == z;
      if k < |before| {
        assert before[k] == z;
      }
    }
    forall z | z in b ensures z in a {
      if z in UsedSince(before, x, n) {
        var k :| j < k < |before| && before[k] % n == x % n && before[k] == z;
        assert h[k] == z;
      } else {
        assert h[|h| - 1] == z;
      }
    }
  }

  lemma {:induction false} IndexUnique(s: seq<Block>, x: Block, i: nat)
    requires i < |s| && s[i] == x && x !in s[..i]
    ensures x in s && IndexOf(s, x) == i
  {
    if i > 0 {
      assert s[0] in s[..i];
      assert s[1..][..i - 1] == s[..i][1..];
      IndexUnique(s[1..], x, i - 1);
    }
  }

  ghost function Ahead(m: seq<Block>, x: Block): set<Block>
    requires x in m
  {
    Elements(m[..IndexOf(m, x)])
  }

  /** Moving y to the front puts y, and nothing else, newly ahead of x. */
  lemma {:induction false} MoveToFront(m: seq<Block>, y: Block, x: Block)
    requires x != y && x in m && Distinct(m)
    ensures x in [y] + Without(m, y)
    ensures Ahead([y] + Without(m, y), x) == Ahead(m, x) + {y}
  {
    var i := IndexOf(m, x);
    if y in m && IndexOf(m, y) < i {
      MoveFromAhead(m, y, x);
    } else {
      if y in m {
        WithoutAt(m, y);
        assert Without(m, y)[..i] == m[..i];
      }
      PrependAhead(m, Without(m, y), y, x);
    }
  }

  lemma {:induction false} MoveFromAhead(m: seq<Block>, y: Block, x: Block)
    requires x in m && y in m && IndexOf(m, y) < IndexOf(m, x)
    ensures x in [y] + Without(m, y)
    ensures Ahead([y] + Without(m, y), x) == Ahead(m, x) + {y}
  {
    hide Without, Elements;
    var i, j := IndexOf(m, x), IndexOf(m, y);
    var front, back, rest := m[..j], m[j + 1..i], m[i + 1..];
    assert m == front + [y] + back + [x] + rest;
    assert m[..i] == front + [y] + back;
    MoveMiddle(front, y, back, x, rest);
  }

  lemma {:induction false} MoveMiddle(front: seq<Block>, y: Block, back: seq<Block>, x: Block, rest: seq<Block>)
    requires x !in front + [y] + back && y !in front
    ensures var m := front + [y] + back + [x] + rest;
            && x in m && x in [y] + Without(m, y)
            && Ahead([y] + Without(m, y), x) == Ahead(m, x) + {y}
  {
    hide Without, Elements;
    var m := front + [y] + back + [x] + rest;
    assert m == front + [y] + (back + [x] + rest);
    WithoutParts(front, y, back + [x] + rest);
    assert [y] + Without(m, y) == ([y] + front + back) + [x] + rest;
    IndexOfMiddle(front + [y] + back, x, rest);
    IndexOfMiddle([y] + front + back, x, rest);
    ElementsOf([y] + front + back, front + [y] + back, y);
  }

  lemma {:induction false} IndexOfMiddle(a: seq<Block>, x: Block, b: seq<Block>)
    requires x !in a
    ensures x in a + [x] + b && IndexOf(a + [x] + b, x) == |a| && (a + [x] + b)[..|a|] == a
  {
    IndexUnique(a + [x] + b, x, |a|);
  }

  lemma {:induction false} PrependAhead(m: seq<Block>, rest: seq<Block>, y: Block, x: Block)
    requires x != y && x in m && IndexOf(m, x) < |rest|
    requires rest[IndexOf(m, x)] == x && rest[..IndexOf(m, x)] == m[..IndexOf(m, x)]
    ensures x in [y] + rest
    ensures Ahead([y] + rest, x) == Ahead(m, x) + {y}
  {
    var i := IndexOf(m, x);
    var r := [y] + rest;
    assert r[..i + 1] == [y] + m[..i];
    assert r[i + 1] == x;
    IndexUnique(r, x, i + 1);
    ElementsOf([y] + m[..i], m[..i], y);
  }

  lemma {:induction false} InSetStep(h: seq<Block>, y: Block, s: nat, n: nat)
    requires n > 0
    ensures InSet(h + [y], s, n) == if y % n == s then InSet(h, s, n) + [y] else InSet(h, s, n)
    ensures y % n == s ==> MostRecent(InSet(h + [y], s, n)) == [y] + Without(MostRecent(InSet(h, s, n)), y)
  {
    var own := InSet(h, s, n);
    assert (h + [y])[..|h|] == h;
    assert (own + [y])[..|own|] == own;
  }

  lemma {:induction false} UsedJustNow(h: seq<Block>, x: Block, n: nat)
    requires n > 0 && |h| > 0 && h[|h| - 1] == x
    ensures UsedSince(h, x, n) == {}
  {
  }

  lemma {:induction false} FrontAhead(rest: seq<Block>, x: Block)
    ensures Ahead([x] + rest, x) == {}
  {
  }

  /** Ahead of x in recency order are exactly the blocks used since x was. */
  lemma {:induction false} AheadIsUsedSince(h: seq<Block>, x: Block, n: nat)
    requires n > 0 && x in h
    ensures x in MostRecent(InSet(h, x % n, n))
    ensures Ahead(MostRecent(InSet(h, x % n, n)), x) == UsedSince(h, x, n)
  {
    hide InSet, MostRecent, Without, UsedSince, Elements;
    var s := x % n;
    var before, y := h[..|h| - 1], h[|h| - 1];
    assert h == before + [y];
    InSetStep(before, y, s, n);
    if y == x {
      UsedJustNow(h, x, n);
      FrontAhead(Without(MostRecent(InSet(before, s, n)), y), x);
    } else {
      UsedSinceStep(h, x, n);
      AheadIsUsedSince(before, x, n);
      if y % n == s {
        MostRecentFacts(InSet(before, s, n));
        MoveToFront(MostRecent(InSet(before, s, n)), y, x);
      }
    }
  }

  lemma {:induction false} ElementsOf(a: seq<Block>, b: seq<Block>, y: Block)
    requires forall z: Block :: z in a <==> z in b || z == y
    ensures Elements(a) == Elements(b) + {y}
  {
    forall z: Block ensures z in Elements(a) <==> z in Elements(b) + {y} {
    }
  }

  /** The reuse-distance law of LRU: an access hits exactly when its block was
      used before and fewer than `ways` distinct other blocks of the same set have
      been used since. */
  lemma {:induction false} HitsByReuseDistance(h: seq<Block>, x: Block, n: nat, ways: nat)
    requires n > 0
    ensures Hits(h, x, n, ways) <==> x in h && |UsedSince(h, x, n)| < ways
  {
    var s := x % n;
    var m := MostRecent(InSet(h, s, n));
    SetIsMostRecent(h, s, n, ways);
    MostRecentFacts(InSet(h, s, n));
    InSetMembers(h, s, n);
    if x in h {
      AheadIsUsedSince(h, x, n);
      var i := IndexOf(m, x);
      DistinctCount(m[..i]);
      assert i < ways ==> Take(m, ways)[i] == x;
      if x in Take(m, ways) {
        var j :| 0 <= j < |Take(m, ways)| && Take(m, ways)[j] == x;
        assert m[j] == x;
      }
    }
  }

  // -------------------------------------------------------------------- inclusion

  /** A smaller-associativity cache holds the front of every set of a larger one. */
  lemma {:induction false} Inclusion(h: seq<Block>, s: nat, n: nat, small: nat, large: nat)
    requires s < n && small <= large
    ensures SetsAfter(h, n, small)[s] == Take(SetsAfter(h, n, large)[s], small)
  {
    SetIsMostRecent(h, s, n, small);
    SetIsMostRecent(h, s, n, large);
    TakeOfTake(MostRecent(InSet(h, s, n)), small, large);
  }

  /** Hence every hit of the smaller is a hit of the larger, and adding ways never
      adds a miss: LRU has no Belady anomaly. */
  lemma {:induction false} MoreWaysNeverMissMore(h: seq<Block>, n: nat, small: nat, large: nat)
    requires n > 0 && small <= large
    ensures forall x: Block | Hits(h, x, n, small) :: Hits(h, x, n, large)
    ensures Misses(h, n, large) <= Misses(h, n, small)
  {
    forall x: Block | Hits(h, x, n, small) ensures Hits(h, x, n, large) {
      Inclusion(h, x % n, n, small, large);
    }
    if h != [] {
      MoreWaysNeverMissMore(h[..|h| - 1], n, small, large);
    }
  }

  // ------------------------------------------------------------ compulsory misses

  /** When no set is asked to hold more distinct blocks than it can, nothing is
      ever evicted and the misses are the distinct blocks. */
  lemma {:induction false} OnlyCompulsoryMisses(h: seq<Block>, n: nat, ways: nat)
    requires n > 0
    requires forall s | 0 <= s < n :: |Elements(InSet(h, s, n))| <= ways
    ensures Misses(h, n, ways) == |Elements(h)|
  {
    if h != [] {
      var before, x := h[..|h| - 1], h[|h| - 1];
      assert h == before + [x];
      forall s | 0 <= s < n ensures |Elements(InSet(before, s, n))| <= ways {
        assert Elements(InSet(before, s, n)) <= Elements(InSet(h, s, n));
        SubsetCount(Elements(InSet(before, s, n)), Elements(InSet(h, s, n)));
      }
      OnlyCompulsoryMisses(before, n, ways);
      HitsByReuseDistance(before, x, n, ways);
      assert Elements(h) == Elements(before) + {x};
      if x in before {
        var others := UsedSince(before, x, n);
        InSetMembers(before, x % n, n);
        assert others <= Elements(InSet(before, x % n, n)) - {x};
        SubsetCount(others, Elements(InSet(before, x % n, n)) - {x});
        assert x in Elements(InSet(before, x % n, n));
      }
    }
  }

  lemma {:induction false} SubsetCount(a: set<Block>, b: set<Block>)
    requires a <= b
    ensures |a| <= |b|
  {
    assert b == a + (b - a);
  }

  /** A set all of whose members are x has at most that one. */
  lemma {:induction false} SmallSet(s: set<Block>, x: Block)
    requires forall b :: b in s ==> b == x
    ensures |s| <= 1
  {
    forall b | b in s ensures b in {x} {
    }
    SubsetCount(s, {x});
  }

  /** A cache that is only ever asked for one block misses it once. */
  lemma {:induction false} OneBlockMisses(h: seq<Block>, x: Block, n: nat, ways: nat)
    requires n > 0 && ways > 0 && forall b :: b in h ==> b == x
    ensures Misses(h, n, ways) == if h == [] then 0 else 1
  {
    hide Misses;
    forall s | 0 <= s < n ensures |Elements(InSet(h, s, n))| <= ways {
      InSetMembers(h, s, n);
      SmallSet(Elements(InSet(h, s, n)), x);
    }
    OnlyCompulsoryMisses(h, n, ways);
    if h == [] {
      assert Elements(h) == {};
    } else {
      assert h[0] in Elements(h);
      forall b | b in Elements(h) ensures b == x {
      }
      assert Elements(h) == {x};
    }
  }

  /** The reuse-distance law over addresses: with lines of this size, an access
      hits exactly when some earlier access was to the same line and fewer than
      `ways` distinct other lines of its set have been accessed since. */
  lemma {:induction false} HitsByAddress(h: seq<Block>, addresses: seq<nat>, address: nat, line: nat, n: nat, ways: nat)
    requires n > 0 && line > 0 && |h| == |addresses|
    requires forall i | 0 <= i < |h| :: h[i] == addresses[i] / line
    ensures Hits(h, address / line, n, ways)
            <==> exists i | 0 <= i < |addresses| ::
                   && addresses[i] / line == address / line
                   && |set j | i < j < |addresses| && addresses[j] / line % n == address / line % n
                               && addresses[j] / line != address / line :: addresses[j] / line| < ways
  {
    hide Hits, UsedSince;
    var x := address / line;
    HitsByReuseDistance(h, x, n, ways);
    if x in h {
      var last := LastUse(h, x);
      OthersSince(h, x, n, last);
      assert addresses[last] / line == x;
      forall i | 0 <= i < |addresses| && addresses[i] / line == x
        ensures |UsedSince(h, x, n)|
                <= |set j | i < j < |addresses| && addresses[j] / line % n == x % n && addresses[j] / line != x
                      :: addresses[j] / line|
      {
        assert h[i] == x;
        OthersSince(h, x, n, i);
        assert (set j | i < j < |h| && h[j] % n == x % n && h[j] != x :: h[j])
            == (set j | i < j < |addresses| && addresses[j] / line % n == x % n && addresses[j] / line != x
                  :: addresses[j] / line);
      }
      assert (set j | last < j < |h| && h[j] % n == x % n && h[j] != x :: h[j])
          == (set j | last < j < |addresses| && addresses[j] / line % n == x % n && addresses[j] / line != x
                :: addresses[j] / line);
    } else {
      forall i | 0 <= i < |addresses| ensures addresses[i] / line != x {
        assert h[i] in h;
      }
    }
  }

  /** Looking back to an earlier use only adds blocks. */
  lemma {:induction false} OthersSince(h: seq<Block>, x: Block, n: nat, i: nat)
    requires n > 0 && i < |h| && h[i] == x
    ensures var others := set j | i < j < |h| && h[j] % n == x % n && h[j] != x :: h[j];
            |UsedSince(h, x, n)| <= |others| && (i == LastUse(h, x) ==> others == UsedSince(h, x, n))
  {
    var others := set j | i < j < |h| && h[j] % n == x % n && h[j] != x :: h[j];
    assert UsedSince(h, x, n) <= others;
    SubsetCount(UsedSince(h, x, n), others);
  }

  /** The miss counter counts the accesses that do not hit. */
  lemma {:induction false} MissesAre(h: seq<Block>, n: nat, ways: nat)
    requires n > 0
    ensures Misses(h, n, ways) == |set i | 0 <= i < |h| && !Hits(h[..i], h[i], n, ways)|
  {
    hide Hits;
    var p := i => 0 <= i < |h| && !Hits(h[..i], h[i], n, ways);
    for k := 0 to |h|
      invariant Misses(h[..k], n, ways) == |Counting.Where(k, p)|
    {
      Counting.WhereStep(k, p);
      assert h[..k + 1][..k] == h[..k];
    }
    assert h[..|h|] == h;
    assert Counting.Where(|h|, p) == set i | 0 <= i < |h| && !Hits(h[..i], h[i], n, ways);
  }
}
