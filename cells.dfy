/**
 * A region of the map (`Cell` in src/cell.rs): its name, the indices of
 * its neighbours in the owning map, and its palette colour if it has one.
 * The connection toggle is modelled here together with the sequence
 * facts it rests on.
 */
module Cells {
  import opened Wrappers

  /** The number of colours in the palette; a colour is an index below it. */
  const PaletteSize: nat := 4

  datatype Cell = Cell(name: string, connections: seq<nat>, color: Option<nat>)
  {
    /** `Cell::new`: a cell with the given name, no connections and no colour. */
    static function New(name: string): Cell
    {
      Cell(name, [], None)
    }

    /**
     * `Cell::link_changed`: scan the connections in order; at the first one
     * equal to `other` remove it and stop, and if there is none append
     * `other`. The cell is a value here, so the updated cell is returned.
     */
    method LinkChanged(other: nat) returns (c: Cell)
      ensures c == this.(connections := Toggled(connections, other))
    {
      var i := 0;
      while i < |connections|
        invariant 0 <= i <= |connections|
        invariant other !in connections[..i]
      {
        if connections[i] == other {
          c := this.(connections := connections[..i] + connections[i + 1..]);
          return;
        }
        i := i + 1;
      }
      c := this.(connections := connections + [other]);
    }
  }

  /** No element occurs twice in `s`. */
  predicate NoDup(s: seq<nat>)
  {
    forall a, b :: 0 <= a < b < |s| ==> s[a] != s[b]
  }

  /** The position of the first occurrence of `x` in `s`. */
  function FirstIndex(s: seq<nat>, x: nat): (k: nat)
    requires x in s
    ensures k < |s| && s[k] == x && x !in s[..k]
  {
    if s[0] == x then 0 else 1 + FirstIndex(s[1..], x)
  }

  /** `s` with the element at position `k` taken out, the rest in order. */
  function RemoveAt(s: seq<nat>, k: nat): seq<nat>
    requires k < |s|
  {
    s[..k] + s[k + 1..]
  }

  /**
   * The connection list after toggling `x`: the first occurrence removed
   * when there is one, otherwise `x` appended.
   */
  function Toggled(s: seq<nat>, x: nat): seq<nat>
  {
    if x in s then RemoveAt(s, FirstIndex(s, x)) else s + [x]
  }

  /** Toggling takes one occurrence of `x` out when present, and adds one when absent. */
  lemma ToggledCounts(s: seq<nat>, x: nat)
    ensures x in s ==> multiset(Toggled(s, x)) == multiset(s) - multiset{x}
    ensures x !in s ==> multiset(Toggled(s, x)) == multiset(s) + multiset{x}
  {
    if x in s {
      var k := FirstIndex(s, x);
      assert s == s[..k] + [x] + s[k + 1..];
    }
  }

  /** On a list without duplicates, toggling flips the membership of `x` and of nothing else. */
  lemma ToggledMembership(s: seq<nat>, x: nat)
    requires NoDup(s)
    ensures NoDup(Toggled(s, x))
    ensures forall y :: y in Toggled(s, x) <==> (y == x <==> y !in s)
  {
    ToggledCounts(s, x);
    var t := Toggled(s, x);
    forall y
      ensures y in t <==> (y == x <==> y !in s)
    {
      assert y in t <==> y in multiset(t);
      assert y in s <==> y in multiset(s);
      if y == x && x in s {
        NoDupCount(s, x);
      }
    }
    ToggledNoDup(s, x);
  }

  /** Toggling keeps a list free of duplicates. */
  lemma ToggledNoDup(s: seq<nat>, x: nat)
    requires NoDup(s)
    ensures NoDup(Toggled(s, x))
  {
    var t := Toggled(s, x);
    if x in s {
      var k := FirstIndex(s, x);
      forall a, b | 0 <= a < b < |t|
        ensures t[a] != t[b]
      {
        var a' := if a < k then a else a + 1;
        var b' := if b < k then b else b + 1;
        assert t[a] == s[a'] && t[b] == s[b'];
      }
    } else {
      forall a, b | 0 <= a < b < |t|
        ensures t[a] != t[b]
      {
        if b == |s| {
          assert t[a] == s[a];
        }
      }
    }
  }

  /** A list without duplicates holds an element at most once. */
  lemma {:induction false} NoDupCount(s: seq<nat>, x: nat)
    requires NoDup(s)
    ensures multiset(s)[x] <= 1
  {
    if s != [] {
      assert s == [s[0]] + s[1..];
      assert NoDup(s[1..]) by {
        forall a, b | 0 <= a < b < |s[1..]|
          ensures s[1..][a] != s[1..][b]
        {
          assert s[1..][a] == s[a + 1] && s[1..][b] == s[b + 1];
        }
      }
      NoDupCount(s[1..], x);
      if s[0] == x {
        assert x !in s[1..] by {
          forall b | 0 <= b < |s[1..]|
            ensures s[1..][b] != x
          {
            assert s[1..][b] == s[b + 1];
          }
        }
      }
    }
  }

  /**
   * Toggling twice: an absent `x` leaves the list exactly as it was; a
   * present `x` (in a list without duplicates) comes back, moved to the end,
   * so the same elements are there in a possibly different order.
   */
  lemma ToggledTwice(s: seq<nat>, x: nat)
    ensures x !in s ==> Toggled(Toggled(s, x), x) == s
    ensures x in s && NoDup(s) ==>
      Toggled(Toggled(s, x), x) == RemoveAt(s, FirstIndex(s, x)) + [x]
    ensures NoDup(s) ==> multiset(Toggled(Toggled(s, x), x)) == multiset(s)
  {
    if x !in s {
      var t := s + [x];
      assert FirstIndex(t, x) == |s| by {
        assert t[|s|] == x;
        assert x !in t[..|s|] by { assert t[..|s|] == s; }
      }
      assert RemoveAt(t, |s|) == s;
    } else if NoDup(s) {
      var t := Toggled(s, x);
      ToggledMembership(s, x);
      assert x !in t;
      assert Toggled(t, x) == t + [x];
      ToggledCounts(s, x);
      assert multiset(t + [x]) == multiset(t) + multiset{x};
    }
  }
}
