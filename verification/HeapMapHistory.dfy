/**
 What a heap map is for, independently of its layout: a set of word addresses, determined by the
 writes and clears made so far.
 */
module HeapMapHistory {

  datatype Op = Put(address: nat, bit: int) | Clear

  function Apply(words: set<nat>, op: Op): set<nat> {
    match op
    case Put(a, bit) => if bit != 0 then words + {a} else words - {a}
    case Clear => {}
  }

  function Replay(ops: seq<Op>): set<nat> {
    if ops == [] then {} else Apply(Replay(ops[..|ops| - 1]), ops[|ops| - 1])
  }

  predicate Disturbs(op: Op, a: nat) { op.Clear? || op.address == a }

  /** The last put to a since the last clear was non-zero. */
  ghost predicate LastPutIsSet(ops: seq<Op>, a: nat) {
    exists k :: 0 <= k < |ops| && ops[k].Put? && ops[k].address == a && ops[k].bit != 0
                && forall l :: k < l < |ops| ==> !Disturbs(ops[l], a)
  }

  lemma {:induction false} ReplayIsLastPut(ops: seq<Op>, a: nat)
    ensures a in Replay(ops) <==> LastPutIsSet(ops, a)
  {
    if ops != [] {
      var n := |ops| - 1;
      var before, op := ops[..n], ops[n];
      ReplayIsLastPut(before, a);
      if Disturbs(op, a) {
        assert LastPutIsSet(ops, a) ==> op.Put? && op.bit != 0;
      } else if LastPutIsSet(before, a) {
        var k :| 0 <= k < n && before[k].Put? && before[k].address == a && before[k].bit != 0
                 && forall l :: k < l < n ==> !Disturbs(before[l], a);
        assert ops[k].Put? && ops[k].address == a;
      }
    }
  }

  lemma ReplayNext(ops: seq<Op>, op: Op)
    ensures Replay(ops + [op]) == Apply(Replay(ops), op)
  {
    assert (ops + [op])[..|ops + [op]| - 1] == ops;
  }

  /** A pass over the heap that writes the same bit at every address it meets. */
  function Pass(addresses: seq<nat>, bit: int): (ops: seq<Op>)
    ensures |ops| == |addresses|
  {
    seq(|addresses|, k requires 0 <= k < |addresses| => Put(addresses[k], bit))
  }

  lemma {:induction false} ReplayPass(ops: seq<Op>, addresses: seq<nat>, bit: int)
    ensures Replay(ops + Pass(addresses, bit)) ==
            if bit != 0 then Replay(ops) + (set a | a in addresses)
            else Replay(ops) - (set a | a in addresses)
  {
    if addresses == [] {
      assert ops + Pass(addresses, bit) == ops;
    } else {
      var n := |addresses| - 1;
      ReplayPass(ops, addresses[..n], bit);
      ReplayNext(ops + Pass(addresses[..n], bit), Put(addresses[n], bit));
      assert ops + Pass(addresses, bit) == ops + Pass(addresses[..n], bit) + [Put(addresses[n], bit)];
      assert (set a | a in addresses) == (set a | a in addresses[..n]) + {addresses[n]} by {
        assert addresses == addresses[..n] + [addresses[n]];
      }
    }
  }

  /** The leak check: clear, set the bit of every header met, clear that of every header
      referenced. Whatever the map held before, the bits left are those of the headers met and
      never referenced, and before the last pass a bit is set iff a header is there. */
  lemma LeakCheck(before: seq<Op>, headers: seq<nat>, referenced: seq<nat>)
    ensures Replay(before + [Clear] + Pass(headers, 1)) == (set a | a in headers)
    ensures Replay(before + [Clear] + Pass(headers, 1) + Pass(referenced, 0)) ==
            set a | a in headers && a !in referenced
  {
    ReplayNext(before, Clear);
    ReplayPass(before + [Clear], headers, 1);
    ReplayPass(before + [Clear] + Pass(headers, 1), referenced, 0);
  }
}
