/** Maps built by a sequence of assignments, as Python code builds a dict
    (a request payload, a cookie jar) one `d[k] = v` at a time. */
module Maps {

  /** The keys a list of assignments writes. */
  function Names(pairs: seq<(string, string)>): set<string> {
    set j | 0 <= j < |pairs| :: pairs[j].0
  }

  /** Performs `m[k] = v` for every pair, in order. */
  function Assign(m: map<string, string>, pairs: seq<(string, string)>): (r: map<string, string>)
    ensures r.Keys == m.Keys + Names(pairs)
    decreases |pairs|
  {
    if pairs == [] then m
    else
      var rest := Assign(m[pairs[0].0 := pairs[0].1], pairs[1..]);
      assert Names(pairs) == {pairs[0].0} + Names(pairs[1..]) by {
        forall x | x in Names(pairs)
          ensures x in {pairs[0].0} + Names(pairs[1..])
        {
          var j :| 0 <= j < |pairs| && pairs[j].0 == x;
          if j > 0 {
            assert pairs[1..][j - 1].0 == x;
          }
        }
        forall x | x in Names(pairs[1..])
          ensures x in Names(pairs)
        {
          var j :| 0 <= j < |pairs[1..]| && pairs[1..][j].0 == x;
          assert pairs[j + 1].0 == x;
        }
      }
      rest
  }

  /** A key no assignment writes keeps its value. */
  lemma {:induction false} AssignKeeps(m: map<string, string>, pairs: seq<(string, string)>, k: string)
    requires k in m && k !in Names(pairs)
    ensures Assign(m, pairs)[k] == m[k]
    decreases |pairs|
  {
    if pairs != [] {
      assert pairs[0].0 in Names(pairs);
      assert Names(pairs[1..]) <= Names(pairs) by {
        forall x | x in Names(pairs[1..])
          ensures x in Names(pairs)
        {
          var j :| 0 <= j < |pairs[1..]| && pairs[1..][j].0 == x;
          assert pairs[j + 1].0 == x;
        }
      }
      AssignKeeps(m[pairs[0].0 := pairs[0].1], pairs[1..], k);
    }
  }

  /** A written key holds the value of its last assignment. */
  lemma {:induction false} AssignLastWins(m: map<string, string>, pairs: seq<(string, string)>, j: nat)
    requires j < |pairs|
    requires forall i :: j < i < |pairs| ==> pairs[i].0 != pairs[j].0
    ensures Assign(m, pairs)[pairs[j].0] == pairs[j].1
    decreases |pairs|
  {
    var m' := m[pairs[0].0 := pairs[0].1];
    if j == 0 {
      assert pairs[0].0 !in Names(pairs[1..]) by {
        forall i | 0 <= i < |pairs[1..]|
          ensures pairs[1..][i].0 != pairs[0].0
        {
          assert pairs[1..][i] == pairs[i + 1];
        }
      }
      AssignKeeps(m', pairs[1..], pairs[0].0);
    } else {
      assert pairs[1..][j - 1] == pairs[j];
      AssignLastWins(m', pairs[1..], j - 1);
    }
  }

  /** Every name takes the value of its last assignment. */
  lemma AssignLastWinsAll(m: map<string, string>, pairs: seq<(string, string)>)
    ensures forall j :: 0 <= j < |pairs| && (forall i :: j < i < |pairs| ==> pairs[i].0 != pairs[j].0) ==>
                        Assign(m, pairs)[pairs[j].0] == pairs[j].1
  {
    forall j | 0 <= j < |pairs| && (forall i :: j < i < |pairs| ==> pairs[i].0 != pairs[j].0)
      ensures Assign(m, pairs)[pairs[j].0] == pairs[j].1
    {
      AssignLastWins(m, pairs, j);
    }
  }

  /** Every key no assignment writes keeps its value. */
  lemma AssignKeepsAll(m: map<string, string>, pairs: seq<(string, string)>)
    ensures forall k :: k in m && k !in Names(pairs) ==> Assign(m, pairs)[k] == m[k]
  {
    forall k | k in m && k !in Names(pairs)
      ensures Assign(m, pairs)[k] == m[k]
    {
      AssignKeeps(m, pairs, k);
    }
  }
}
