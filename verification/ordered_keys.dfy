/**
 The ordered view of a partition's headwords: a partition is a map keyed by
 headword, and traversal in either direction is the key set laid out in
 strictly ascending or strictly descending `LexLess` order.
 */
module OrderedKeys {
  import opened Text

  predicate StrictlyAscending(ks: seq<string>) {
    forall i, j :: 0 <= i < j < |ks| ==> LexLess(ks[i], ks[j])
  }

  predicate StrictlyDescending(ks: seq<string>) {
    forall i, j :: 0 <= i < j < |ks| ==> LexLess(ks[j], ks[i])
  }

  /** `k` is the least element of `s`. */
  predicate IsLeast(k: string, s: set<string>) {
    k in s && forall x :: x in s && x != k ==> LexLess(k, x)
  }

  /** Every non-empty finite set of strings has a least element. */
  lemma {:induction false} LeastExists(s: set<string>)
    requires s != {}
    ensures exists k :: IsLeast(k, s)
    decreases |s|
  {
    var x :| x in s;
    if s == {x} {
      assert IsLeast(x, s);
    } else {
      var rest := s - {x};
      LeastExists(rest);
      var m :| IsLeast(m, rest);
      LexTotal(x, m);
      if LexLess(x, m) {
        forall y | y in s && y != x ensures LexLess(x, y) {
          if y != m {
            LexTransitive(x, m, y);
          }
        }
        assert IsLeast(x, s);
      } else {
        assert IsLeast(m, s);
      }
    }
  }

  /** The least element is unique. */
  lemma LeastUnique(s: set<string>)
    ensures forall a, b :: IsLeast(a, s) && IsLeast(b, s) ==> a == b
  {
    forall a, b | IsLeast(a, s) && IsLeast(b, s) ensures a == b {
      if a != b {
        LexAsymmetric(a, b);
      }
    }
  }

  /** The keys of `s` in strictly ascending order: the traversal order of `lessEntry`. */
  function AscendingKeys(s: set<string>): (ks: seq<string>)
    ensures StrictlyAscending(ks)
    ensures forall k :: k in ks <==> k in s
    ensures |ks| == |s|
    decreases |s|
  {
    if s == {} then []
    else
      LeastExists(s);
      LeastUnique(s);
      var k :| IsLeast(k, s);
      var rest := AscendingKeys(s - {k});
      assert forall j :: 0 <= j < |rest| ==> rest[j] in s - {k};
      [k] + rest
  }

  /** The keys of `s` in strictly descending order: the traversal order of `lessEntryReverse`. */
  function DescendingKeys(s: set<string>): (ks: seq<string>)
    ensures StrictlyDescending(ks)
    ensures forall k :: k in ks <==> k in s
    ensures |ks| == |s|
  {
    var up := AscendingKeys(s);
    var ks := seq(|up|, i requires 0 <= i < |up| => up[|up| - 1 - i]);
    assert forall k :: k in up ==> k in ks by {
      forall k | k in up ensures k in ks {
        var i :| 0 <= i < |up| && up[i] == k;
        assert ks[|up| - 1 - i] == k;
      }
    }
    ks
  }

  /** The head of a strictly ascending listing of a set is its least element, and the tail lists the rest. */
  lemma AscendingHeadTail(ks: seq<string>, s: set<string>)
    requires StrictlyAscending(ks)
    requires forall k :: k in ks <==> k in s
    requires s != {}
    ensures ks != [] && IsLeast(ks[0], s)
    ensures forall x :: x in ks[1..] <==> x in s - {ks[0]}
  {
    var y :| y in s;
    assert y in ks;
    forall x | x in s && x != ks[0] ensures LexLess(ks[0], x) {
      var j :| 0 <= j < |ks| && ks[j] == x;
    }
    forall x ensures x in ks[1..] <==> x in s - {ks[0]} {
      if x in ks[1..] {
        var j :| 0 <= j < |ks[1..]| && ks[1..][j] == x;
        assert LexLess(ks[0], ks[j + 1]);
        LexIrreflexive(x);
      }
      if x in s - {ks[0]} {
        var j :| 0 <= j < |ks| && ks[j] == x;
        assert ks[1..][j - 1] == x;
      }
    }
  }

  /**
   A strictly ascending listing of a set is unique: whatever order the keys
   were inserted in, the traversal is the same.
   */
  lemma {:induction false} AscendingUnique(ks: seq<string>, s: set<string>)
    requires StrictlyAscending(ks)
    requires forall k :: k in ks <==> k in s
    ensures ks == AscendingKeys(s)
    decreases |s|
  {
    var asc := AscendingKeys(s);
    if |ks| == 0 {
      assert s == {};
    } else {
      assert ks[0] in s;
      AscendingHeadTail(ks, s);
      AscendingHeadTail(asc, s);
      LeastUnique(s);
      var k := ks[0];
      AscendingUnique(ks[1..], s - {k});
      AscendingUnique(asc[1..], s - {k});
      assert ks == [k] + ks[1..] && asc == [k] + asc[1..];
    }
  }
}
