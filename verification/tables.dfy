/**
 * Helpers for the in-memory tables that stand for the database. A table is a map from
 * primary key to row; listing a table yields its rows in ascending key order.
 */
module Tables {

  /** The keys of `s` strictly increase from left to right. */
  predicate Increasing(s: seq<int>) {
    forall i, j :: 0 <= i < j < |s| ==> s[i] < s[j]
  }

  /** A non-empty key set has a member. */
  lemma HasMember(keys: set<int>)
    requires keys != {}
    ensures exists k :: k in keys
  {
    if forall k :: k !in keys {
      assert false;
    }
  }

  /** A row of a table is stored under some key. */
  lemma KeyOf<V>(t: map<int, V>, v: V)
    requires v in t.Values
    ensures exists k :: k in t && t[k] == v
  {
    if forall k :: k in t ==> t[k] != v {
      assert false;
    }
  }

  /**
   * In a table whose rows sit under their own ids (`id` reads a row's id), no row
   * carries an id that is not a key.
   */
  lemma AbsentKey<V>(t: map<int, V>, id: V -> int, key: int)
    requires forall k :: k in t ==> id(t[k]) == k
    requires key !in t
    ensures forall v :: v in t.Values ==> id(v) != key
  {
    forall v | v in t.Values ensures id(v) != key {
      KeyOf(t, v);
      var k :| k in t && t[k] == v;
    }
  }

  /** `m` is the least member of `keys`. */
  predicate IsLeast(m: int, keys: set<int>) {
    m in keys && forall k :: k in keys ==> m <= k
  }

  /** Every non-empty finite set of integers has a least member. */
  lemma {:induction false} LeastExists(keys: set<int>)
    requires keys != {}
    ensures exists m :: IsLeast(m, keys)
  {
    HasMember(keys);
    var x :| x in keys;
    var rest := keys - {x};
    if rest == {} {
      forall k | k in keys ensures x <= k {
        assert k !in rest;
      }
      assert IsLeast(x, keys);
    } else {
      LeastExists(rest);
      var m :| IsLeast(m, rest);
      if x < m {
        forall k | k in keys ensures x <= k {
          assert k == x || k in rest;
        }
        assert IsLeast(x, keys);
      } else {
        forall k | k in keys ensures m <= k {
          assert k == x || k in rest;
        }
        assert IsLeast(m, keys);
      }
    }
  }

  /** The least member of a non-empty key set. */
  function Least(keys: set<int>): (m: int)
    requires keys != {}
    ensures m in keys && forall k :: k in keys ==> m <= k
  {
    LeastExists(keys);
    var m :| IsLeast(m, keys); m
  }

  /** The keys of `keys` listed once each, in ascending order. */
  function Ascending(keys: set<int>): (r: seq<int>)
    ensures |r| == |keys|
    ensures forall k :: k in r <==> k in keys
    ensures Increasing(r)
    decreases keys
  {
    if keys == {} then []
    else
      var m := Least(keys);
      [m] + Ascending(keys - {m})
  }

  /** The rows of `t` under the keys `ks`, in the order of `ks`. */
  function RowsAt<V>(t: map<int, V>, ks: seq<int>): (r: seq<V>)
    requires forall i :: 0 <= i < |ks| ==> ks[i] in t
    ensures |r| == |ks|
    ensures forall i :: 0 <= i < |ks| ==> r[i] == t[ks[i]]
  {
    if ks == [] then [] else [t[ks[0]]] + RowsAt(t, ks[1..])
  }

  /** The rows of table `t`, in ascending key order: every row once, and nothing else. */
  function Rows<V(==)>(t: map<int, V>): (r: seq<V>)
    ensures |r| == |t|
    ensures forall i :: 0 <= i < |r| ==> Ascending(t.Keys)[i] in t && r[i] == t[Ascending(t.Keys)[i]]
    ensures forall k :: k in t ==> t[k] in r
    ensures forall v :: v in r ==> v in t.Values
  {
    RowsAt(t, Ascending(t.Keys))
  }
}
