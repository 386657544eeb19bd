/** Writing a sequence of (key, value) pairs into a Python dict one after the
    other (`d[k] = v` or `d.update({k: v})` in a loop): later pairs win. */
module Assoc {

  /** `m` with every pair of `pairs` written into it, left to right. */
  function Update<V>(m: map<string, V>, pairs: seq<(string, V)>): map<string, V>
    decreases |pairs|
  {
    if |pairs| == 0 then m else Update(m[pairs[0].0 := pairs[0].1], pairs[1..])
  }

  /** The keys named by `pairs`. */
  function KeysOf<V>(pairs: seq<(string, V)>): set<string>
  {
    set i | 0 <= i < |pairs| :: pairs[i].0
  }

  /** No pair after position `i` names the same key as pair `i`. */
  ghost predicate IsLast<V>(pairs: seq<(string, V)>, i: int)
    requires 0 <= i < |pairs|
  {
    forall j :: i < j < |pairs| ==> pairs[j].0 != pairs[i].0
  }

  /** `m` is `m0` overwritten by `pairs`: its keys are those of `m0` and of the
      pairs, a key no pair names keeps its old value, and a key some pair names
      holds the value of the LAST pair naming it. */
  ghost predicate LastWins<V>(m0: map<string, V>, pairs: seq<(string, V)>, m: map<string, V>)
  {
    && m.Keys == m0.Keys + KeysOf(pairs)
    && (forall k :: k in m0 && k !in KeysOf(pairs) ==> m[k] == m0[k])
    && (forall i :: 0 <= i < |pairs| && IsLast(pairs, i) ==> m[pairs[i].0] == pairs[i].1)
  }

  /** Writing the pairs one by one gives the last-write-wins map. */
  lemma {:induction false} UpdateLastWins<V>(m: map<string, V>, pairs: seq<(string, V)>)
    ensures LastWins(m, pairs, Update(m, pairs))
    decreases |pairs|
  {
    if |pairs| > 0 {
      var tail := pairs[1..];
      var m' := m[pairs[0].0 := pairs[0].1];
      UpdateLastWins(m', tail);
      assert KeysOf(pairs) == {pairs[0].0} + KeysOf(tail) by {
        forall k | k in KeysOf(pairs) ensures k in {pairs[0].0} + KeysOf(tail) {
          var i :| 0 <= i < |pairs| && pairs[i].0 == k;
          if i > 0 {
            assert tail[i - 1].0 == k;
          }
        }
        forall k | k in KeysOf(tail) ensures k in KeysOf(pairs) {
          var i :| 0 <= i < |tail| && tail[i].0 == k;
          assert pairs[i + 1].0 == k;
        }
      }
      var r := Update(m, pairs);
      forall i | 0 <= i < |pairs| && IsLast(pairs, i)
        ensures r[pairs[i].0] == pairs[i].1
      {
        if i > 0 {
          assert tail[i - 1] == pairs[i];
          assert IsLast(tail, i - 1);
        }
      }
    }
  }

  /** Every key some pair names has a last pair naming it. */
  lemma {:induction false} LastExists<V>(pairs: seq<(string, V)>, k: string)
    requires k in KeysOf(pairs)
    ensures exists i :: 0 <= i < |pairs| && pairs[i].0 == k && IsLast(pairs, i)
    decreases |pairs|
  {
    var tail := pairs[1..];
    if k in KeysOf(tail) {
      LastExists(tail, k);
      var i :| 0 <= i < |tail| && tail[i].0 == k && IsLast(tail, i);
      assert pairs[i + 1] == tail[i];
      assert IsLast(pairs, i + 1);
    } else {
      assert pairs[0].0 == k;
      forall j | 0 < j < |pairs| ensures pairs[j].0 != k {
        assert tail[j - 1] == pairs[j];
      }
      assert IsLast(pairs, 0);
    }
  }

  /** The last-write-wins description fixes the map completely. */
  lemma LastWinsUnique<V>(m0: map<string, V>, pairs: seq<(string, V)>, a: map<string, V>, b: map<string, V>)
    requires LastWins(m0, pairs, a) && LastWins(m0, pairs, b)
    ensures a == b
  {
    forall k | k in a ensures a[k] == b[k] {
      if k in KeysOf(pairs) {
        LastExists(pairs, k);
      }
    }
  }

  /** Every value of a last-write-wins map comes from `m0` or from a pair. */
  lemma LastWinsValues<V>(m0: map<string, V>, pairs: seq<(string, V)>, m: map<string, V>, k: string)
    requires LastWins(m0, pairs, m) && k in m
    ensures (k in m0 && m[k] == m0[k]) || exists i :: 0 <= i < |pairs| && pairs[i] == (k, m[k])
  {
    if k in KeysOf(pairs) {
      LastExists(pairs, k);
    }
  }
}
