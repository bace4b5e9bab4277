/**
 * Strictly ascending integer sequences: the order every tree's GetVector
 * produces; and the larger of two integers, which both AVL trees use for
 * heights.
 */
module SortedSeq {

  /** std::max of two heights. */
  function Max(a: int, b: int): (m: int)
    ensures m >= a && m >= b && (m == a || m == b)
  {
    if a < b then b else a
  }

  /** Strictly ascending, hence without duplicates. */
  predicate Ascending(s: seq<int>)
  {
    forall i, j :: 0 <= i < j < |s| ==> s[i] < s[j]
  }

  /** The elements of a sequence. */
  function Elems(s: seq<int>): set<int>
  {
    set x | x in s
  }

  /** An ascending sequence around a pivot splits into smaller keys, the pivot, and larger keys. */
  lemma AscendingConcat(a: seq<int>, k: int, b: seq<int>)
    ensures Ascending(a + [k] + b) <==>
      Ascending(a) && Ascending(b) && (forall x :: x in a ==> x < k) && (forall x :: x in b ==> k < x)
  {
    var s := a + [k] + b;
    if Ascending(a) && Ascending(b) && (forall x :: x in a ==> x < k) && (forall x :: x in b ==> k < x) {
      forall i, j | 0 <= i < j < |s| ensures s[i] < s[j] {
        if j < |a| {
        } else if j == |a| {
          assert s[i] in a;
        } else if i < |a| {
          assert s[i] in a && s[j] in b;
        } else if i == |a| {
          assert s[j] in b;
        } else {
          assert s[i] == b[i - |a| - 1] && s[j] == b[j - |a| - 1];
        }
      }
    }
    if Ascending(s) {
      forall i, j | 0 <= i < j < |b| ensures b[i] < b[j] {
        assert b[i] == s[|a| + 1 + i] && b[j] == s[|a| + 1 + j];
      }
      forall x | x in a ensures x < k {
        var i :| 0 <= i < |a| && a[i] == x;
        assert s[i] == x && s[|a|] == k;
      }
      forall x | x in b ensures k < x {
        var i :| 0 <= i < |b| && b[i] == x;
        assert s[|a| + 1 + i] == x && s[|a|] == k;
      }
      assert a == s[..|a|];
    }
  }

  /** Any contiguous block of an ascending sequence is ascending. */
  lemma AscendingSlice(s: seq<int>, i: nat, j: nat)
    requires Ascending(s) && i <= j <= |s|
    ensures Ascending(s[i..j])
  {
    forall u, v | 0 <= u < v < j - i ensures s[i..j][u] < s[i..j][v] {
      assert s[i..j][u] == s[i + u] && s[i..j][v] == s[i + v];
    }
  }

  /** Dropping one element of an ascending sequence removes exactly that value. */
  lemma AscendingDrop(s: seq<int>, i: nat)
    requires Ascending(s) && i < |s|
    ensures Ascending(s[..i] + s[i + 1..])
    ensures Elems(s[..i] + s[i + 1..]) == Elems(s) - {s[i]}
  {
    var t := s[..i] + s[i + 1..];
    forall u, v | 0 <= u < v < |t| ensures t[u] < t[v] {
      var u' := if u < i then u else u + 1;
      var v' := if v < i then v else v + 1;
      assert t[u] == s[u'] && t[v] == s[v'];
    }
    forall x | x in Elems(s) - {s[i]} ensures x in Elems(t) {
      var w :| 0 <= w < |s| && s[w] == x;
      if w < i { assert t[w] == x; } else { assert w > i && t[w - 1] == x; }
    }
    forall x | x in Elems(t) ensures x in Elems(s) - {s[i]} {
      var w :| 0 <= w < |t| && t[w] == x;
      var w' := if w < i then w else w + 1;
      assert s[w'] == x && w' != i;
    }
  }

  lemma ElemsConcat(a: seq<int>, k: int, b: seq<int>)
    ensures Elems(a + [k] + b) == Elems(a) + {k} + Elems(b)
  {
    var s := a + [k] + b;
    forall x | x in Elems(s) ensures x in Elems(a) + {k} + Elems(b) {
      var i :| 0 <= i < |s| && s[i] == x;
      if i < |a| { assert a[i] == x; } else if i > |a| { assert b[i - |a| - 1] == x; }
    }
    forall x | x in Elems(a) + {k} + Elems(b) ensures x in Elems(s) {
      if x in a {
        var i :| 0 <= i < |a| && a[i] == x;
        assert s[i] == x;
      } else if x in b {
        var i :| 0 <= i < |b| && b[i] == x;
        assert s[|a| + 1 + i] == x;
      } else {
        assert s[|a|] == x;
      }
    }
  }

  /** Growing the part left of a pivot by one smaller key keeps the whole ascending. */
  lemma AscendingGrowLeft(l: seq<int>, k: int, r: seq<int>, l': seq<int>, key: int)
    requires Ascending(l + [k] + r) && key < k && Ascending(l') && Elems(l') == Elems(l) + {key}
    ensures Ascending(l' + [k] + r) && Elems(l' + [k] + r) == Elems(l + [k] + r) + {key}
  {
    AscendingConcat(l, k, r);
    AscendingConcat(l', k, r);
    ElemsConcat(l, k, r);
    ElemsConcat(l', k, r);
    forall x | x in l' ensures x < k {
      assert x in Elems(l');
      if x != key { assert x in Elems(l); }
    }
  }

  /** Growing the part right of a pivot by one larger key keeps the whole ascending. */
  lemma AscendingGrowRight(l: seq<int>, k: int, r: seq<int>, r': seq<int>, key: int)
    requires Ascending(l + [k] + r) && k < key && Ascending(r') && Elems(r') == Elems(r) + {key}
    ensures Ascending(l + [k] + r') && Elems(l + [k] + r') == Elems(l + [k] + r) + {key}
  {
    AscendingConcat(l, k, r);
    AscendingConcat(l, k, r');
    ElemsConcat(l, k, r);
    ElemsConcat(l, k, r');
    forall x | x in r' ensures k < x {
      assert x in Elems(r');
      if x != key { assert x in Elems(r); }
    }
  }
}
