/**
 The iteration orders the engine relies on. A `std::set<std::string>` is visited in
 lexicographic order of its strings, compared character by character; `Enumerate`
 lists a set of strings in exactly that order. `EnumerateIds` lists a set of document
 ids in ascending order, the deterministic stand-in for the unspecified order of an
 `std::unordered_map<int, double>`.
 */
module Ordering {

  /** Strict lexicographic order on strings: a proper prefix comes first, otherwise the
      first differing character decides. */
  predicate Below(a: string, b: string)
    decreases |a|
  {
    b != [] && (a == [] || a[0] < b[0] || (a[0] == b[0] && Below(a[1..], b[1..])))
  }

  lemma BelowIrreflexive(a: string)
    ensures !Below(a, a)
  {
  }

  lemma {:induction false} BelowTransitive(a: string, b: string, c: string)
    requires Below(a, b) && Below(b, c)
    ensures Below(a, c)
    decreases |a|
  {
    if a != [] && a[0] == b[0] && b[0] == c[0] {
      BelowTransitive(a[1..], b[1..], c[1..]);
    }
  }

  lemma {:induction false} BelowAsymmetric(a: string, b: string)
    requires Below(a, b)
    ensures !Below(b, a)
    decreases |a|
  {
    if a != [] && a[0] == b[0] {
      BelowAsymmetric(a[1..], b[1..]);
    }
  }

  lemma {:induction false} BelowTotal(a: string, b: string)
    ensures a == b || Below(a, b) || Below(b, a)
    decreases |a|
  {
    if a != [] && b != [] && a[0] == b[0] {
      BelowTotal(a[1..], b[1..]);
      if a[1..] == b[1..] {
        assert a == [a[0]] + a[1..] && b == [b[0]] + b[1..];
      }
    }
  }

  /** `m` is the first element of `s` in iteration order. */
  predicate IsLeast(m: string, s: set<string>)
  {
    m in s && forall x :: x in s && x != m ==> Below(m, x)
  }

  lemma {:induction false} LeastExists(s: set<string>)
    requires s != {}
    ensures exists m :: IsLeast(m, s)
    decreases |s|
  {
    var y :| y in s;
    var rest := s - {y};
    assert forall x :: x in s ==> x == y || x in rest;
    if rest == {} {
      assert IsLeast(y, s);
    } else {
      LeastExists(rest);
      var m :| IsLeast(m, rest);
      BelowTotal(y, m);
      if Below(y, m) {
        forall x | x in s && x != y
          ensures Below(y, x)
        {
          if x != m {
            BelowTransitive(y, m, x);
          }
        }
        assert IsLeast(y, s);
      } else {
        assert IsLeast(m, s);
      }
    }
  }

  lemma LeastIsUnique(s: set<string>)
    ensures forall m1, m2 :: IsLeast(m1, s) && IsLeast(m2, s) ==> m1 == m2
  {
    forall m1, m2 | IsLeast(m1, s) && IsLeast(m2, s)
      ensures m1 == m2
    {
      if m1 != m2 {
        BelowAsymmetric(m1, m2);
      }
    }
  }

  /** Strictly ascending, hence free of duplicates. */
  predicate Ascending(ws: seq<string>)
  {
    forall i, j :: 0 <= i < j < |ws| ==> Below(ws[i], ws[j])
  }

  /** The elements of `s` in the order a `std::set<std::string>` visits them. */
  function Enumerate(s: set<string>): (ws: seq<string>)
    ensures |ws| == |s|
    ensures forall w :: w in ws <==> w in s
    ensures Ascending(ws)
    decreases |s|
  {
    if s == {} then []
    else
      var m := Least(s);
      [m] + Enumerate(s - {m})
  }

  /** The first word a `std::set<std::string>` visits: the one below all others. */
  function Least(s: set<string>): (m: string)
    requires s != {}
    ensures IsLeast(m, s)
  {
    LeastExists(s);
    LeastIsUnique(s);
    var m :| m in s && IsLeast(m, s);
    m
  }

  /** The head of an ascending sequence is the least element of its set. */
  lemma AscendingHeadIsLeast(ws: seq<string>, s: set<string>)
    requires Ascending(ws) && ws != []
    requires forall w :: w in ws <==> w in s
    ensures IsLeast(ws[0], s)
  {
    forall x | x in s && x != ws[0]
      ensures Below(ws[0], x)
    {
      var k :| 0 <= k < |ws| && ws[k] == x;
    }
  }

  /** An ascending sequence is determined by its elements: it is the enumeration of
      their set. */
  lemma {:induction false} AscendingIsEnumeration(ws: seq<string>, s: set<string>)
    requires Ascending(ws)
    requires forall w :: w in ws <==> w in s
    ensures ws == Enumerate(s)
    decreases |ws|
  {
    if ws == [] {
      assert s == {};
    } else {
      var rest := s - {ws[0]};
      AscendingTail(ws, s);
      AscendingIsEnumeration(ws[1..], rest);
      EnumerateFromLeast(ws[0], s);
      assert ws == [ws[0]] + ws[1..];
    }
  }

  /** Dropping the head of an ascending sequence drops exactly that element. */
  lemma AscendingTail(ws: seq<string>, s: set<string>)
    requires Ascending(ws) && ws != []
    requires forall w :: w in ws <==> w in s
    ensures Ascending(ws[1..])
    ensures forall w :: w in ws[1..] <==> w in s - {ws[0]}
  {
    forall w
      ensures w in ws[1..] <==> w in s - {ws[0]}
    {
      if w in ws[1..] {
        var k :| 1 <= k < |ws| && ws[k] == w;
        BelowIrreflexive(w);
      }
      if w in s - {ws[0]} {
        assert w in ws;
      }
    }
  }

  /** The enumeration of a set starts with its least element. */
  lemma EnumerateFromLeast(m: string, s: set<string>)
    requires IsLeast(m, s)
    ensures Enumerate(s) == [m] + Enumerate(s - {m})
  {
    var e := Enumerate(s);
    AscendingHeadIsLeast(e, s);
    LeastIsUnique(s);
  }

  /** `m` is the smallest element of a set of ids. */
  predicate IsSmallest(m: int, s: set<int>)
  {
    m in s && forall x :: x in s ==> m <= x
  }

  lemma HasElement(s: set<int>)
    requires s != {}
    ensures exists d :: d in s
  {
    if forall d :: d !in s {
      assert false;
    }
  }

  lemma SmallestExists(s: set<int>)
    requires s != {}
    ensures exists m :: IsSmallest(m, s)
    decreases |s|
  {
    HasElement(s);
    var y :| y in s;
    var rest := s - {y};
    assert forall x :: x in s ==> x == y || x in rest;
    if rest == {} {
      assert IsSmallest(y, s);
    } else {
      SmallestExists(rest);
      var m :| IsSmallest(m, rest);
      if y <= m {
        assert IsSmallest(y, s);
      } else {
        assert IsSmallest(m, s);
      }
    }
  }

  /** The ids of `s` in ascending order. */
  function EnumerateIds(s: set<int>): (ids: seq<int>)
    ensures |ids| == |s|
    ensures forall d :: d in ids <==> d in s
    ensures forall i, j :: 0 <= i < j < |ids| ==> ids[i] < ids[j]
    decreases |s|
  {
    if s == {} then []
    else
      var m := Smallest(s);
      [m] + EnumerateIds(s - {m})
  }

  /** The smallest id of a non-empty set. */
  function Smallest(s: set<int>): (m: int)
    requires s != {}
    ensures IsSmallest(m, s)
  {
    SmallestExists(s);
    var m :| m in s && IsSmallest(m, s);
    m
  }
}
