/** `df.groupby(keys)[col].sum()`: one group per distinct key holding the
    sum of the column over the rows with that key. Groups come out in the
    order their keys first occur. */
module Grouping {
  import opened RealSeq

  datatype Group<K> = Group(key: K, total: real)

  function Keys<K>(gs: seq<Group<K>>): (ks: seq<K>)
    ensures |ks| == |gs|
    ensures forall i :: 0 <= i < |gs| ==> ks[i] == gs[i].key
  {
    seq(|gs|, i requires 0 <= i < |gs| => gs[i].key)
  }

  function Totals<K>(gs: seq<Group<K>>): (ts: seq<real>)
    ensures |ts| == |gs|
    ensures forall i :: 0 <= i < |gs| ==> ts[i] == gs[i].total
  {
    seq(|gs|, i requires 0 <= i < |gs| => gs[i].total)
  }

  ghost predicate DistinctKeys<K>(gs: seq<Group<K>>)
  {
    forall i, j :: 0 <= i < j < |gs| ==> gs[i].key != gs[j].key
  }

  /** Adds `v` to the group of `k`, opening that group at the end if it is new. */
  function AddTo<K(==)>(gs: seq<Group<K>>, k: K, v: real): (r: seq<Group<K>>)
    ensures |r| == |gs| || |r| == |gs| + 1
  {
    if gs == [] then [Group(k, v)]
    else if gs[0].key == k then [Group(k, gs[0].total + v)] + gs[1..]
    else [gs[0]] + AddTo(gs[1..], k, v)
  }

  function GroupSum<K(==)>(keys: seq<K>, vals: seq<real>): seq<Group<K>>
    requires |keys| == |vals|
  {
    if keys == [] then []
    else AddTo(GroupSum(keys[..|keys| - 1], vals[..|vals| - 1]), keys[|keys| - 1], vals[|vals| - 1])
  }

  /** Reference definition: the sum of the values whose key is `k`. */
  function SumWhere<K(==)>(keys: seq<K>, vals: seq<real>, k: K): real
    requires |keys| == |vals|
  {
    if keys == [] then 0.0
    else SumWhere(keys[..|keys| - 1], vals[..|vals| - 1], k)
         + (if keys[|keys| - 1] == k then vals[|vals| - 1] else 0.0)
  }

  /** The total of the group with key `k`, or 0 when there is none. */
  function TotalOf<K(==)>(gs: seq<Group<K>>, k: K): real
  {
    if gs == [] then 0.0 else if gs[0].key == k then gs[0].total else TotalOf(gs[1..], k)
  }

  lemma {:induction false} AddToKeys<K>(gs: seq<Group<K>>, k: K, v: real)
    ensures forall x :: x in Keys(AddTo(gs, k, v)) <==> x in Keys(gs) || x == k
  {
    if gs != [] && gs[0].key != k {
      AddToKeys(gs[1..], k, v);
      assert Keys(AddTo(gs, k, v)) == [gs[0].key] + Keys(AddTo(gs[1..], k, v));
      assert Keys(gs) == [gs[0].key] + Keys(gs[1..]);
    } else if gs != [] {
      assert Keys(AddTo(gs, k, v)) == [k] + Keys(gs[1..]);
      assert Keys(gs) == [gs[0].key] + Keys(gs[1..]);
      assert Keys(AddTo(gs, k, v)) == Keys(gs);
      assert Keys(gs)[0] == k;
    } else {
      assert Keys(AddTo(gs, k, v)) == [k];
    }
  }

  lemma {:induction false} AddToDistinct<K>(gs: seq<Group<K>>, k: K, v: real)
    requires DistinctKeys(gs)
    ensures DistinctKeys(AddTo(gs, k, v))
  {
    if gs != [] && gs[0].key != k {
      AddToDistinct(gs[1..], k, v);
      AddToKeys(gs[1..], k, v);
      var r := AddTo(gs, k, v);
      var rest := AddTo(gs[1..], k, v);
      assert gs[0].key !in Keys(gs[1..]) by {
        forall i | 0 <= i < |gs[1..]| ensures Keys(gs[1..])[i] != gs[0].key {
          assert gs[1..][i] == gs[i + 1];
        }
      }
      forall i, j | 0 <= i < j < |r| ensures r[i].key != r[j].key {
        assert r[j] == rest[j - 1];
        if i > 0 {
          assert r[i] == rest[i - 1];
        } else {
          assert Keys(rest)[j - 1] == r[j].key;
        }
      }
    } else if gs != [] {
      var r := AddTo(gs, k, v);
      forall i, j | 0 <= i < j < |r| ensures r[i].key != r[j].key {
        assert r[j] == gs[j];
        if i > 0 { assert r[i] == gs[i]; }
      }
    }
  }

  lemma {:induction false} AddToTotal<K>(gs: seq<Group<K>>, k: K, v: real, x: K)
    ensures TotalOf(AddTo(gs, k, v), x) == TotalOf(gs, x) + (if x == k then v else 0.0)
  {
    if gs != [] && gs[0].key != k {
      AddToTotal(gs[1..], k, v, x);
    } else if gs != [] {
      assert AddTo(gs, k, v)[1..] == gs[1..];
    }
  }

  lemma {:induction false} AddToSum<K>(gs: seq<Group<K>>, k: K, v: real)
    ensures Sum(Totals(AddTo(gs, k, v))) == Sum(Totals(gs)) + v
  {
    if gs == [] {
      assert Totals([Group(k, v)]) == [v];
    } else {
      assert Totals(gs)[1..] == Totals(gs[1..]);
      if gs[0].key != k {
        AddToSum(gs[1..], k, v);
        assert Totals(AddTo(gs, k, v))[1..] == Totals(AddTo(gs[1..], k, v));
      } else {
        assert Totals(AddTo(gs, k, v))[1..] == Totals(gs[1..]);
      }
    }
  }

  /** In a list of groups with distinct keys every group holds `TotalOf` its key. */
  lemma {:induction false} TotalOfDistinct<K>(gs: seq<Group<K>>, i: int)
    requires DistinctKeys(gs) && 0 <= i < |gs|
    ensures TotalOf(gs, gs[i].key) == gs[i].total
  {
    if i > 0 {
      assert gs[0].key != gs[i].key;
      assert gs[1..][i - 1] == gs[i];
      TotalOfDistinct(gs[1..], i - 1);
    }
  }

  /** One group per distinct key: the keys of the groups are the keys of
      the rows, each once. */
  lemma {:induction false} GroupSumKeys<K>(keys: seq<K>, vals: seq<real>)
    requires |keys| == |vals|
    ensures DistinctKeys(GroupSum(keys, vals))
    ensures forall x :: x in Keys(GroupSum(keys, vals)) <==> x in keys
  {
    if keys != [] {
      var n := |keys| - 1;
      GroupSumKeys(keys[..n], vals[..n]);
      AddToKeys(GroupSum(keys[..n], vals[..n]), keys[n], vals[n]);
      AddToDistinct(GroupSum(keys[..n], vals[..n]), keys[n], vals[n]);
      assert keys == keys[..n] + [keys[n]];
    }
  }

  /** Each group's total is the sum of the values of the rows with its key. */
  lemma {:induction false} GroupSumTotal<K>(keys: seq<K>, vals: seq<real>, x: K)
    requires |keys| == |vals|
    ensures TotalOf(GroupSum(keys, vals), x) == SumWhere(keys, vals, x)
  {
    if keys != [] {
      var n := |keys| - 1;
      GroupSumTotal(keys[..n], vals[..n], x);
      AddToTotal(GroupSum(keys[..n], vals[..n]), keys[n], vals[n], x);
    }
  }

  /** Grouping conserves the column's total. */
  lemma {:induction false} GroupSumConserves<K>(keys: seq<K>, vals: seq<real>)
    requires |keys| == |vals|
    ensures Sum(Totals(GroupSum(keys, vals))) == Sum(vals)
  {
    if keys != [] {
      var n := |keys| - 1;
      GroupSumConserves(keys[..n], vals[..n]);
      AddToSum(GroupSum(keys[..n], vals[..n]), keys[n], vals[n]);
      assert vals == vals[..n] + [vals[n]];
      SumAppend(vals[..n], vals[n]);
    }
  }

  /** The three facts together, group by group. */
  lemma GroupSumSpec<K>(keys: seq<K>, vals: seq<real>)
    requires |keys| == |vals|
    ensures var gs := GroupSum(keys, vals);
            && DistinctKeys(gs)
            && (forall x :: x in Keys(gs) <==> x in keys)
            && (forall i :: 0 <= i < |gs| ==> gs[i].total == SumWhere(keys, vals, gs[i].key))
            && Sum(Totals(gs)) == Sum(vals)
  {
    var gs := GroupSum(keys, vals);
    GroupSumKeys(keys, vals);
    GroupSumConserves(keys, vals);
    forall i | 0 <= i < |gs| ensures gs[i].total == SumWhere(keys, vals, gs[i].key) {
      TotalOfDistinct(gs, i);
      GroupSumTotal(keys, vals, gs[i].key);
    }
  }
}
