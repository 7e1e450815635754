/** Calls of atomic.c that take effect one after another, and what they answer, said twice: by registers that the
  * calls are applied to in order, which is what the proofs about threads need, and by the last call before each that
  * wrote its object, which needs no registers to be read.
  */
module Orders {
  import opened Powers
  import opened ByteStrings
  import opened Atomics

  /** The registers after some calls took effect one after another. */
  ghost function Registers(initial: map<Address, seq<Byte>>, log: seq<Entry>): (r: map<Address, seq<Byte>>)
    ensures r.Keys == initial.Keys
  {
    if log == [] then initial
    else
      var last := log[|log| - 1];
      var before := Registers(initial, log[..|log| - 1]);
      if last.address in before then before[last.address := Apply(last.call, before[last.address]).bytes] else before
  }

  lemma RegistersAfter(initial: map<Address, seq<Byte>>, log: seq<Entry>, e: Entry)
    requires e.address in initial
    ensures var before := Registers(initial, log);
      Registers(initial, log + [e]) == before[e.address := Apply(e.call, before[e.address]).bytes]
  {
    assert (log + [e])[..|log|] == log;
  }

  /** Each call answered what the registers before it say. */
  ghost predicate Legal(initial: map<Address, seq<Byte>>, log: seq<Entry>) {
    forall p :: 0 <= p < |log| ==>
      && log[p].address in initial
      && Fits(log[p].call, |initial[log[p].address]|)
      && log[p].outcome == Apply(log[p].call, Registers(initial, log[..p])[log[p].address]).outcome
  }

  lemma LegalAfter(initial: map<Address, seq<Byte>>, log: seq<Entry>, e: Entry)
    requires Legal(initial, log) && e.address in initial && Fits(e.call, |initial[e.address]|)
    requires e.outcome == Apply(e.call, Registers(initial, log)[e.address]).outcome
    ensures Legal(initial, log + [e])
  {
    var after := log + [e];
    forall p | 0 <= p < |after|
      ensures after[p].address in initial && Fits(after[p].call, |initial[after[p].address]|)
      ensures after[p].outcome == Apply(after[p].call, Registers(initial, after[..p])[after[p].address]).outcome
    {
      if p < |log| { assert after[..p] == log[..p]; } else { assert after[..p] == log; }
    }
  }

  lemma LegalAt(initial: map<Address, seq<Byte>>, log: seq<Entry>, p: nat)
    requires Legal(initial, log) && p < |log|
    ensures log[p].address in initial && Fits(log[p].call, |initial[log[p].address]|)
    ensures log[p].outcome == Apply(log[p].call, Registers(initial, log[..p])[log[p].address]).outcome
  {
  }

  lemma LegalPrefix(initial: map<Address, seq<Byte>>, log: seq<Entry>, n: nat)
    requires Legal(initial, log) && n <= |log|
    ensures Legal(initial, log[..n])
  {
    hide Registers, Apply, Fits;
    var before := log[..n];
    forall p | 0 <= p < n
      ensures before[p].address in initial && Fits(before[p].call, |initial[before[p].address]|)
      ensures before[p].outcome == Apply(before[p].call, Registers(initial, before[..p])[before[p].address]).outcome
    {
      assert before[..p] == log[..p] && before[p] == log[p];
    }
  }

  lemma ApplySize(call: Call, was: seq<Byte>)
    requires Fits(call, |was|)
    ensures |Apply(call, was).bytes| == |was|
  {
  }

  /** Whether a call that took effect wrote the object. A comparison wrote where it matched. */
  predicate Writes(e: Entry, a: Address) {
    e.address == a
    && match e.call
       case Load => false
       case CompareExchange(_, _, _) => e.outcome == Matched
       case _ => true
  }

  /** What a call that wrote its object left there, told from what it was handed and what it answered. */
  ghost predicate Leaves(e: Entry, bytes: seq<Byte>) {
    match e.call
    case Load => false
    case Store(value) => bytes == value
    case Exchange(value) => bytes == value
    case CompareExchange(_, desired, _) => bytes == desired
    case Fetch(rmw, operand) =>
      e.outcome.Got? && |bytes| == 16 && Decode(bytes) == Applied(rmw, Decode(e.outcome.bytes), operand)
  }

  predicate LastWrite(order: seq<Entry>, a: Address, q: nat) {
    q < |order| && Writes(order[q], a) && forall r | q < r < |order| :: !Writes(order[r], a)
  }

  predicate Unwritten(order: seq<Entry>, a: Address) {
    forall r | 0 <= r < |order| :: !Writes(order[r], a)
  }

  /** After these calls the object holds what the last to write it left there, and at first what it began with. */
  ghost predicate Holds(initial: map<Address, seq<Byte>>, order: seq<Entry>, a: Address, bytes: seq<Byte>) {
    || (a in initial && Unwritten(order, a) && bytes == initial[a])
    || exists q: nat :: LastWrite(order, a, q) && Leaves(order[q], bytes)
  }

  /** The answer of a call, told from the calls before it: a load, an exchange and a read-modify-write hand back what
    * the object held, and a comparison matches exactly where that is what was expected, and hands it back otherwise.
    */
  ghost predicate Explained(initial: map<Address, seq<Byte>>, before: seq<Entry>, e: Entry) {
    match e.call
    case Store(_) => e.outcome == Done
    case CompareExchange(expected, _, _) =>
      || (e.outcome == Matched && Holds(initial, before, e.address, expected))
      || (e.outcome.Differed? && e.outcome.bytes != expected
          && Holds(initial, before, e.address, e.outcome.bytes))
    case _ => e.outcome.Got? && Holds(initial, before, e.address, e.outcome.bytes)
  }

  /** What the object holds is one thing, so that an explanation leaves no choice. */
  lemma HoldsOneThing(initial: map<Address, seq<Byte>>, order: seq<Entry>, a: Address, one: seq<Byte>, two: seq<Byte>)
    requires Holds(initial, order, a, one) && Holds(initial, order, a, two)
    ensures one == two
  {
    hide Leaves, Writes;
    if !Unwritten(order, a) {
      var q: nat :| LastWrite(order, a, q) && Leaves(order[q], one);
      var r: nat :| LastWrite(order, a, r) && Leaves(order[r], two);
      assert q == r;
      LeavesOneThing(order[q], one, two);
    }
  }

  lemma LeavesOneThing(e: Entry, one: seq<Byte>, two: seq<Byte>)
    requires Leaves(e, one) && Leaves(e, two)
    ensures one == two
  {
    if e.call.Fetch? {
      EncodeDecodes(one);
      EncodeDecodes(two);
    }
  }

  /** What is held is held on, past a call that does not write, and a call that does leaves what it leaves. */
  lemma HoldsAfter(initial: map<Address, seq<Byte>>, order: seq<Entry>, e: Entry, a: Address, bytes: seq<Byte>)
    requires if Writes(e, a) then Leaves(e, bytes) else Holds(initial, order, a, bytes)
    ensures Holds(initial, order + [e], a, bytes)
  {
    hide Leaves, Writes;
    var after := order + [e];
    if Writes(e, a) {
      assert LastWrite(after, a, |order|);
    } else if !Unwritten(order, a) {
      var q: nat :| LastWrite(order, a, q) && Leaves(order[q], bytes);
      assert LastWrite(after, a, q);
    }
  }

  /** A call applied to a register leaves there what it leaves, and does not touch it where it does not write. */
  lemma AppliedLeaves(e: Entry, was: seq<Byte>)
    requires Fits(e.call, |was|) && e.outcome == Apply(e.call, was).outcome
    ensures if Writes(e, e.address) then Leaves(e, Apply(e.call, was).bytes) else Apply(e.call, was).bytes == was
  {
    if e.call.Fetch? { AfterwardsIsStored(e.call.rmw, was, e.call.operand); }
  }

  /** The registers hold what the last call to write each of them left there. */
  lemma {:induction false} RegisterHolds(initial: map<Address, seq<Byte>>, order: seq<Entry>, a: Address)
    requires a in initial && Legal(initial, order)
    ensures |Registers(initial, order)[a]| == |initial[a]|
    ensures Holds(initial, order, a, Registers(initial, order)[a])
  {
    hide Legal, Apply, Fits, Leaves, Writes, Holds;
    if order == [] {
      NothingWritten(initial, a);
    } else {
      var before, e := order[..|order| - 1], order[|order| - 1];
      LegalPrefix(initial, order, |order| - 1);
      LegalAt(initial, order, |order| - 1);
      assert order == before + [e];
      RegistersAfter(initial, before, e);
      RegisterHolds(initial, before, a);
      if e.address == a {
        var was := Registers(initial, before)[a];
        ApplySize(e.call, was);
        AppliedLeaves(e, was);
      } else {
        WritesElsewhere(e, a);
      }
      HoldsAfter(initial, before, e, a, Registers(initial, order)[a]);
    }
  }

  lemma NothingWritten(initial: map<Address, seq<Byte>>, a: Address)
    requires a in initial
    ensures Holds(initial, [], a, initial[a])
  {
  }

  lemma WritesElsewhere(e: Entry, a: Address)
    requires e.address != a
    ensures !Writes(e, a)
  {
  }

  /** So a legal order explains every answer in it. */
  lemma LegalExplains(initial: map<Address, seq<Byte>>, log: seq<Entry>, p: nat)
    requires Legal(initial, log) && p < |log|
    ensures Explained(initial, log[..p], log[p])
  {
    LegalAt(initial, log, p);
    hide Legal, Leaves, Writes, Holds, Put, Registers;
    LegalPrefix(initial, log, p);
    RegisterHolds(initial, log[..p], log[p].address);
  }

  /** What was stored is what is there until the next call that writes. */
  lemma LastStoreHolds(initial: map<Address, seq<Byte>>, order: seq<Entry>, a: Address, q: nat, bytes: seq<Byte>)
    requires LastWrite(order, a, q) && order[q].call.Store? && Holds(initial, order, a, bytes)
    ensures bytes == order[q].call.value
  {
    HoldsOneThing(initial, order, a, order[q].call.value, bytes);
  }
}
