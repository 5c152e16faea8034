/**
  The iteration order of a `std::map` keyed by strings: ascending under the
  lexicographic comparison of code units. Both the argument insertion loop and
  the substitution loop of the interpolator walk a map in this order.
 */
module OrderedKeys {
  import opened Strings

  /** Strictly ascending, hence also free of duplicates. */
  predicate Ascending(keys: seq<string>) {
    forall i, j :: 0 <= i < j < |keys| ==> LexLt(keys[i], keys[j])
  }

  /** Adding one key `x` to a set whose least key is `m` leaves the smaller
      of `m` and `x` least. */
  lemma LeastOfInsert(rest: set<string>, m: string, x: string) returns (least: string)
    requires m in rest && forall k :: k in rest ==> LexLe(m, k)
    ensures least in rest + {x} && forall k :: k in rest + {x} ==> LexLe(least, k)
  {
    LexLeTotal(m, x);
    LexLeRefl(x);
    if LexLe(m, x) {
      least := m;
    } else {
      least := x;
      forall k | k in rest
        ensures LexLe(x, k)
      {
        LexLeTransitive(x, m, k);
      }
    }
  }

  lemma {:induction false} LeastWitness(keys: set<string>) returns (m: string)
    requires keys != {}
    ensures m in keys && forall k :: k in keys ==> LexLe(m, k)
    decreases |keys|
  {
    var x :| x in keys;
    if keys == {x} {
      LexLeRefl(x);
      m := x;
    } else {
      var rest := keys - {x};
      var m' := LeastWitness(rest);
      m := LeastOfInsert(rest, m', x);
      assert rest + {x} == keys;
    }
  }

  lemma LeastExists(keys: set<string>)
    requires keys != {}
    ensures exists m :: m in keys && forall k :: k in keys ==> LexLe(m, k)
  {
    var m := LeastWitness(keys);
  }

  /** The smallest key of a non-empty key set. */
  ghost function Least(keys: set<string>): (m: string)
    requires keys != {}
    ensures m in keys && forall k :: k in keys ==> LexLe(m, k)
  {
    LeastExists(keys);
    var m :| m in keys && forall k :: k in keys ==> LexLe(m, k);
    m
  }

  /** The keys in the order a `std::map` visits them. */
  ghost function SortedKeys(keys: set<string>): (r: seq<string>)
    ensures |r| == |keys|
    ensures forall k :: k in r <==> k in keys
    ensures Ascending(r)
    decreases |keys|
  {
    if keys == {} then []
    else
      var m := Least(keys);
      [m] + SortedKeys(keys - {m})
  }

  /** An ascending listing of a key set is the map's order: the order is
      determined by the keys alone. */
  lemma {:induction false} SortedKeysUnique(r: seq<string>, keys: set<string>)
    requires Ascending(r)
    requires forall k :: k in r <==> k in keys
    ensures r == SortedKeys(keys)
    decreases |keys|
  {
    if |r| == 0 {
      assert keys == {};
    } else {
      assert r[0] in keys by {
        var k :| k in keys;
        assert k in r;
      }
      var m := Least(keys);
      forall k | k in keys
        ensures LexLe(r[0], k)
      {
        var j :| 0 <= j < |r| && r[j] == k;
        if j == 0 {
          LexLeRefl(k);
        }
      }
      LexLeAntisymmetric(r[0], m);
      var tail := r[1..];
      forall k
        ensures k in tail <==> k in keys - {m}
      {
        if k in tail {
          var j :| 0 <= j < |tail| && tail[j] == k;
          assert r[j + 1] == k;
        }
        if k in keys - {m} {
          var j :| 0 <= j < |r| && r[j] == k;
          assert j != 0;
          assert tail[j - 1] == k;
        }
      }
      assert Ascending(tail) by {
        forall i, j | 0 <= i < j < |tail|
          ensures LexLt(tail[i], tail[j])
        {
          assert tail[i] == r[i + 1] && tail[j] == r[j + 1];
        }
      }
      SortedKeysUnique(tail, keys - {m});
      assert r == [r[0]] + tail;
    }
  }

  /** The empty key is below every other, so a map holding it visits it first. */
  lemma EmptyKeyFirst(keys: seq<string>)
    requires Ascending(keys) && "" in keys
    ensures keys[0] == ""
  {
    var j :| 0 <= j < |keys| && keys[j] == "";
    if j > 0 {
      assert LexLt(keys[0], keys[j]);
    }
  }

  /** In an ascending listing, position follows the order. */
  lemma AscendingIndexOrder(keys: seq<string>, i: nat, j: nat)
    requires Ascending(keys) && i < |keys| && j < |keys|
    requires LexLt(keys[i], keys[j])
    ensures i < j
  {
    if j < i {
      LexLeAntisymmetric(keys[i], keys[j]);
    }
  }
}
