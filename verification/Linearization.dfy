/** Every interleaving of the calls of atomic.c on any number of objects is a sequence of calls on registers, one
  * after another, in an order that keeps every call between the moment it was made and the moment it answered.
  */
module Linearization {
  import opened Powers
  import opened ByteStrings
  import opened Atomics
  import opened Orders

  /** What a thread knows, against the register of its object and the bytes that are in memory. */
  ghost predicate Knows(m: Machine, phase: Phase, register: seq<Byte>, bytes: seq<Byte>)
    requires phase.Pending()
  {
    var call := phase.call;
    match phase
    case Called(_, _, _) => true
    case Guessing(_, address, _, guess) =>
      Paired(m, address) && guess < RANGE && (call.Store? || call.Exchange? || call.Fetch?)
    case Reading(_, _, _, got) =>
      && bytes == register && got <= register
      && !call.Store?
      && (call.CompareExchange? && !call.sized ==> register != call.expected)
    case Comparing(_, _, _, at) =>
      && bytes == register
      && call.CompareExchange? && at <= |register| == |call.expected|
      && call.expected[..at] == register[..at]
    case Writing(_, _, _, next, at, outcome) =>
      && Apply(call, register) == Effect(next, outcome)
      && at <= |next| == |register|
      && bytes == next[..at] + register[at..]
    case Dropping(_, _, _, outcome) => Apply(call, register) == Effect(bytes, outcome)
  }

  /** No thread is in the middle of writing the object. */
  ghost predicate Quiet(threads: seq<Phase>, address: Address) {
    forall t :: 0 <= t < |threads| && threads[t].Touched() ==> threads[t].address != address
  }

  /** Memory is the registers wherever nobody is writing, and where somebody is, it is as far as that thread got. */
  ghost predicate Agreement(m: Machine, memory: map<Address, seq<Byte>>, threads: seq<Phase>,
                            registers: map<Address, seq<Byte>>) {
    && memory.Keys == registers.Keys == m.initial.Keys
    && (forall a | a in m.initial :: |memory[a]| == |m.initial[a]| == |registers[a]|)
    && (forall t | 0 <= t < |threads| && threads[t].Pending() ::
          && threads[t].address in m.initial
          && Fits(threads[t].call, |m.initial[threads[t].address]|)
          && Knows(m, threads[t], registers[threads[t].address], memory[threads[t].address]))
    && (forall a | a in m.initial && Quiet(threads, a) :: memory[a] == registers[a])
  }

  /** One lock, one holder, and no locks on an object that is reached by the instruction. */
  ghost predicate Exclusion(m: Machine, held: seq<bool>, threads: seq<Phase>) {
    && |held| == LOCKS
    && (forall t | 0 <= t < |threads| && threads[t].Holds() ::
          !Paired(m, threads[t].address) && held[GuardFor(threads[t].address)])
    && (forall t, u | 0 <= t < |threads| && 0 <= u < |threads| && t != u && threads[t].Holds() && threads[u].Holds() ::
          GuardFor(threads[t].address) != GuardFor(threads[u].address))
    && (forall g | 0 <= g < LOCKS && held[g] ::
          exists t :: 0 <= t < |threads| && threads[t].Holds() && GuardFor(threads[t].address) == g)
  }

  /** The events have their marks, in order. */
  ghost predicate Marked(history: seq<Event>, marks: seq<nat>, log: seq<Entry>) {
    && |marks| == |history|
    && (forall k | 0 <= k < |marks| :: marks[k] <= |log|)
    && (forall j, k | 0 <= j <= k < |marks| :: marks[j] <= marks[k])
  }

  predicate Makes(event: Event, address: Address, call: Call) {
    event.Invoked? && event.address == address && event.call == call
  }

  /** Every call that took effect was made, before it took effect, and is in the order once. */
  ghost predicate Placed(history: seq<Event>, marks: seq<nat>, log: seq<Entry>, place: map<nat, nat>)
    requires |marks| == |history|
  {
    && (forall p | 0 <= p < |log| :: log[p].id in place && place[log[p].id] == p)
    && (forall id | id in place ::
          && place[id] < |log| && log[place[id]].id == id
          && id < |history| && Makes(history[id], log[place[id]].address, log[place[id]].call)
          && marks[id] <= place[id])
  }

  /** Every call that answered had taken effect, with that answer. */
  ghost predicate Answered(history: seq<Event>, marks: seq<nat>, log: seq<Entry>, place: map<nat, nat>)
    requires |marks| == |history|
  {
    forall k | 0 <= k < |history| && history[k].Returned? ::
      && history[k].id in place
      && place[history[k].id] < |log|
      && log[place[history[k].id]].outcome == history[k].answer
      && place[history[k].id] < marks[k]
  }

  /** A call under way is the last that its thread made, and it has not taken effect. */
  ghost predicate Making(history: seq<Event>, place: map<nat, nat>, t: nat, phase: Phase)
    requires phase.Pending()
  {
    && phase.id !in place
    && phase.id < |history| && history[phase.id] == Invoked(t, phase.address, phase.call)
    && forall k | phase.id < k < |history| && history[k].Invoked? :: history[k].thread != t
  }

  /** Every call that was made has taken effect or is under way, in the thread that made it. */
  ghost predicate Accounted(history: seq<Event>, place: map<nat, nat>, threads: seq<Phase>) {
    forall k | 0 <= k < |history| && history[k].Invoked? :: k in place || IsMaking(threads, history[k].thread, k)
  }

  predicate IsMaking(threads: seq<Phase>, t: nat, id: nat) {
    t < |threads| && threads[t].Pending() && threads[t].id == id
  }

  ghost predicate Busy(history: seq<Event>, log: seq<Entry>, place: map<nat, nat>, threads: seq<Phase>) {
    && (forall t | 0 <= t < |threads| && threads[t].Pending() :: Making(history, place, t, threads[t]))
    && (forall t | 0 <= t < |threads| && threads[t].Returning? ::
          && threads[t].id in place && place[threads[t].id] < |log|
          && log[place[threads[t].id]].outcome == threads[t].outcome)
  }

  /** The records tell the truth: where a call is in the order, and what had happened when. */
  ghost predicate Records(s: State) {
    && Marked(s.history, s.marks, s.log)
    && Placed(s.history, s.marks, s.log, s.place)
    && Answered(s.history, s.marks, s.log, s.place)
    && Busy(s.history, s.log, s.place, s.threads)
    && Accounted(s.history, s.place, s.threads)
  }

  /** What every run keeps. Every step finds what it reads, so that no thread is ever stuck. */
  ghost predicate Invariant(m: Machine, s: State) {
    && Sound(m, s)
    && Agreement(m, s.memory, s.threads, Registers(m.initial, s.log))
    && Legal(m.initial, s.log)
    && Exclusion(m, s.held, s.threads)
    && Records(s)
  }

  lemma InitiallyInvariant(m: Machine, s: State)
    requires Initial(m, s)
    ensures Invariant(m, s)
  {
  }

  // The object of thread `t` is in nobody else's hands.
  ghost predicate Alone(threads: seq<Phase>, t: nat, address: Address) {
    forall u | 0 <= u < |threads| && u != t && threads[u].Holds() :: threads[u].address != address
  }

  lemma HolderIsAlone(m: Machine, held: seq<bool>, threads: seq<Phase>, t: nat)
    requires Exclusion(m, held, threads) && t < |threads| && threads[t].Pending()
    requires threads[t].Holds() || Paired(m, threads[t].address) || !held[GuardFor(threads[t].address)]
    ensures Alone(threads, t, threads[t].address)
  {
  }

  lemma QuietBefore(threads: seq<Phase>, t: nat, phase: Phase, b: Address)
    requires t < |threads| && Quiet(threads[t := phase], b)
    requires threads[t].Touched() ==> threads[t].address != b
    ensures Quiet(threads, b)
  {
    forall u | 0 <= u < |threads| && threads[u].Touched()
      ensures threads[u].address != b
    {
      if u != t { assert threads[t := phase][u] == threads[u]; }
    }
  }

  /** A thread alone at its object may change the object, the register and its own phase, if what it then knows is
    * true.
    */
  lemma AgreementAfter(m: Machine, memory: map<Address, seq<Byte>>, threads: seq<Phase>, registers: map<Address,
            seq<Byte>>,
                       t: nat, a: Address, bytes: seq<Byte>, register: seq<Byte>, phase: Phase)
    requires Agreement(m, memory, threads, registers)
    requires t < |threads| && threads[t].Pending() && a == threads[t].address && Alone(threads, t, a)
    requires |bytes| == |register| == |m.initial[a]|
    requires phase.Pending() ==> phase.address == a && phase.call == threads[t].call && Knows(m, phase, register, bytes)
    requires !phase.Touched() ==> bytes == register
    ensures Agreement(m, memory[a := bytes], threads[t := phase], registers[a := register])
  {
    var memory', threads', registers' := memory[a := bytes], threads[t := phase], registers[a := register];
    assert m.initial.Keys == memory'.Keys == registers'.Keys;
    forall u | 0 <= u < |threads'| && threads'[u].Pending()
      ensures Knows(m, threads'[u], registers'[threads'[u].address], memory'[threads'[u].address])
    {
      if u != t { assert threads'[u] == threads[u]; }
    }
    forall b | b in m.initial && Quiet(threads', b)
      ensures memory'[b] == registers'[b]
    {
      assert threads'[t] == phase;
      if b != a { QuietBefore(threads, t, phase, b); }
    }
  }

  /** A step that touches nothing shared. */
  lemma AgreementMoved(m: Machine, memory: map<Address, seq<Byte>>, threads: seq<Phase>, registers: map<Address,
            seq<Byte>>,
                       t: nat, phase: Phase)
    requires Agreement(m, memory, threads, registers)
    requires t < |threads| && !threads[t].Holds() && !phase.Holds()
    requires phase.Pending() ==> phase.address in m.initial && Fits(phase.call, |m.initial[phase.address]|)
                                 && Knows(m, phase, registers[phase.address], memory[phase.address])
    ensures Agreement(m, memory, threads[t := phase], registers)
  {
    forall b | b in m.initial && Quiet(threads[t := phase], b)
      ensures memory[b] == registers[b]
    {
      QuietBefore(threads, t, phase, b);
    }
  }

  ghost function Register(m: Machine, s: State, a: Address): seq<Byte>
    requires a in m.initial
  {
    Registers(m.initial, s.log)[a]
  }

  ghost predicate Agrees(m: Machine, s: State) {
    Agreement(m, s.memory, s.threads, Registers(m.initial, s.log)) && Legal(m.initial, s.log)
  }

  /** A call that does to memory what it does to a register may take effect. */
  lemma FinishAgrees(m: Machine, s: State, t: nat, bytes: seq<Byte>, outcome: Outcome)
    requires Agrees(m, s) && t < |s.threads| && s.threads[t].Pending() && Alone(s.threads, t, s.threads[t].address)
    requires s.threads[t].address in m.initial
    requires Apply(s.threads[t].call, Register(m, s, s.threads[t].address)) == Effect(bytes, outcome)
    requires |bytes| == |m.initial[s.threads[t].address]|
    requires Fits(s.threads[t].call, |bytes|)
    ensures Agrees(m, Finish(s, t, bytes, outcome))
  {
    hide Legal, Agreement, Apply, Registers, Fits;
    var phase := s.threads[t];
    var e := Entry(phase.id, phase.address, phase.call, outcome);
    RegistersAfter(m.initial, s.log, e);
    LegalAfter(m.initial, s.log, e);
    AgreementAfter(m, s.memory, s.threads, Registers(m.initial, s.log), t, phase.address, bytes, bytes,
                   Returning(phase.id, outcome));
  }

  /** A step under way, which leaves the register as it is. */
  lemma MoveAgrees(m: Machine, s: State, t: nat, phase: Phase, bytes: seq<Byte>)
    requires Agrees(m, s) && t < |s.threads| && s.threads[t].Pending() && Alone(s.threads, t, s.threads[t].address)
    requires s.threads[t].address in m.initial && |bytes| == |m.initial[s.threads[t].address]|
    requires phase.Pending() && phase.address == s.threads[t].address && phase.call == s.threads[t].call
    requires Knows(m, phase, Register(m, s, phase.address), bytes)
    requires !phase.Touched() ==> bytes == Register(m, s, phase.address)
    ensures Agrees(m, Move(s, t, phase).(memory := s.memory[phase.address := bytes]))
  {
    hide Registers, Legal;
    var registers := Registers(m.initial, s.log);
    var a := phase.address;
    assert registers[a := registers[a]] == registers;
    AgreementAfter(m, s.memory, s.threads, registers, t, a, bytes, registers[a], phase);
  }

  /** `cmpxchg16b` compares numbers, which is to compare bytes. */
  lemma ExchangedIsExact(seen: seq<Byte>, expected: seq<Byte>, desired: seq<Byte>)
    requires |seen| == |expected| == |desired| == 16
    ensures Decode(seen) == Decode(expected) <==> seen == expected
    ensures Exchanged(seen, Decode(expected), Decode(desired)) == if seen == expected then desired else seen
  {
    EncodeDecodes(seen);
    EncodeDecodes(expected);
    EncodeDecodes(desired);
  }

  /** The exchange of zero for zero reads, and writes what was there. */
  lemma ExchangedForItself(seen: seq<Byte>)
    requires |seen| == 16
    ensures Exchanged(seen, 0, 0) == seen
  {
    EncodeDecodes(seen);
  }

  lemma QuietWhereAlone(threads: seq<Phase>, t: nat, a: Address)
    requires t < |threads| && Alone(threads, t, a) && !threads[t].Touched()
    ensures Quiet(threads, a)
  {
  }

  lemma BeginPairedAgrees(m: Machine, s: State, t: nat)
    requires Invariant(m, s) && t < |s.threads| && s.threads[t].Called? && Paired(m, s.threads[t].address)
    ensures Agrees(m, BeginPaired(s, t))
  {
    hide Registers;
    var phase := s.threads[t];
    var seen := s.memory[phase.address];
    HolderIsAlone(m, s.held, s.threads, t);
    QuietWhereAlone(s.threads, t, phase.address);
    ExchangedForItself(seen);
    match phase.call {
      case Load =>
        FinishAgrees(m, s, t, seen, Got(seen));
      case CompareExchange(expected, desired, _) =>
        ExchangedIsExact(seen, expected, desired);
        var e := Apply(phase.call, seen);
        FinishAgrees(m, s, t, e.bytes, e.outcome);
      case _ =>
        AgreementMoved(m, s.memory, s.threads, Registers(m.initial, s.log), t,
                       Guessing(phase.id, phase.address, phase.call, 0));
    }
  }

  lemma OperationIsApply(call: Call, seen: seq<Byte>)
    requires |seen| == 16 && Fits(call, 16) && (call.Store? || call.Exchange? || call.Fetch?)
    ensures var (rmw, operand) := Operation(call);
      Exchanged(seen, Decode(seen), Decode(Put(rmw, Decode(seen), operand))) == Apply(call, seen).bytes
    ensures Apply(call, seen).outcome == if call.Store? then Done else Got(seen)
  {
    var (rmw, operand) := Operation(call);
    EncodeDecodes(Put(rmw, Decode(seen), operand));
    match call {
      case Store(value) => EncodeDecodes(value);
      case Exchange(value) => EncodeDecodes(value);
      case Fetch(_, _) =>
    }
  }

  lemma GuessAgrees(m: Machine, s: State, t: nat)
    requires Invariant(m, s) && t < |s.threads| && s.threads[t].Guessing?
    ensures Agrees(m, Guess(s, t))
  {
    hide Registers;
    var phase := s.threads[t];
    var seen := s.memory[phase.address];
    assert Knows(m, phase, Register(m, s, phase.address), seen);
    HolderIsAlone(m, s.held, s.threads, t);
    QuietWhereAlone(s.threads, t, phase.address);
    hide Apply;
    if Decode(seen) == phase.guess {
      OperationIsApply(phase.call, seen);
      ApplySize(phase.call, seen);
      var e := Apply(phase.call, seen);
      FinishAgrees(m, s, t, e.bytes, e.outcome);
    } else {
      DecodeBelow(seen);
      SixteenBytes();
      AgreementMoved(m, s.memory, s.threads, Registers(m.initial, s.log), t,
                     Guessing(phase.id, phase.address, phase.call, Decode(seen)));
    }
  }

  /** A step under the lock that does not write. */
  lemma LookAgrees(m: Machine, s: State, t: nat, phase: Phase)
    requires Agrees(m, s) && t < |s.threads| && s.threads[t].Pending() && Alone(s.threads, t, s.threads[t].address)
    requires s.threads[t].address in m.initial && s.threads[t].address in s.memory
    requires phase.Pending() && phase.address == s.threads[t].address && phase.call == s.threads[t].call
    requires Knows(m, phase, Register(m, s, phase.address), s.memory[phase.address])
    requires s.memory[phase.address] == Register(m, s, phase.address)
    ensures Agrees(m, Move(s, t, phase))
  {
    hide Registers;
    hide Knows;
    assert s.memory[phase.address := s.memory[phase.address]] == s.memory;
    MoveAgrees(m, s, t, phase, s.memory[phase.address]);
  }

  /** What a thread knew before a step tells it what it knows after. */
  lemma UnderLockKnows(m: Machine, phase: Phase, register: seq<Byte>)
    requires phase.Called? && Fits(phase.call, |register|)
    ensures Knows(m, UnderLock(phase), register, register)
  {
    WritingKnows(m, UnderLock(phase), register);
  }

  lemma WritingKnows(m: Machine, phase: Phase, register: seq<Byte>)
    requires phase.Writing? ==> phase.at == 0 && |phase.next| == |register|
                                && Apply(phase.call, register) == Effect(phase.next, phase.outcome)
    ensures phase.Writing? ==> Knows(m, phase, register, register)
  {
    if phase.Writing? { assert register == phase.next[..0] + register[0..]; }
  }

  lemma ReadKnows(m: Machine, phase: Phase, register: seq<Byte>)
    requires phase.Reading? && Fits(phase.call, |register|) && Knows(m, phase, register, register)
    ensures Knows(m, Read(phase, register), register, register)
  {
    if |phase.got| == |register| {
      assert phase.got == register;
      WritingKnows(m, Read(phase, register), register);
    }
  }

  lemma CompareKnows(m: Machine, phase: Phase, register: seq<Byte>)
    requires phase.Comparing? && Fits(phase.call, |register|) && Knows(m, phase, register, register)
    ensures Knows(m, Compare(phase, register), register, register)
  {
    var expected, at := phase.call.expected, phase.at;
    if at == |register| {
      assert expected == expected[..at] && register == register[..at];
      WritingKnows(m, Compare(phase, register), register);
    } else if register[at] == expected[at] {
      assert expected[..at + 1] == expected[..at] + [expected[at]];
      assert register[..at + 1] == register[..at] + [register[at]];
    }
  }

  lemma WriteKnows(m: Machine, phase: Phase, register: seq<Byte>, bytes: seq<Byte>)
    requires phase.Writing? && Knows(m, phase, register, bytes)
    ensures |bytes| == |register| == |phase.next|
    ensures phase.at < |bytes| ==>
      Knows(m, Writing(phase.id, phase.address, phase.call, phase.next, phase.at + 1, phase.outcome), register,
            bytes[phase.at := phase.next[phase.at]])
    ensures phase.at >= |bytes| ==>
      Knows(m, Dropping(phase.id, phase.address, phase.call, phase.outcome), register, bytes)
  {
    var next, at := phase.next, phase.at;
    if at < |bytes| {
      assert bytes[at := next[at]] == next[..at + 1] + register[at + 1..];
    } else {
      assert bytes == next;
    }
  }

  lemma KnowsOf(m: Machine, s: State, t: nat)
    requires Invariant(m, s) && t < |s.threads| && s.threads[t].Pending()
    ensures var phase := s.threads[t];
      && phase.address in m.initial && phase.address in s.memory
      && |Register(m, s, phase.address)| == |m.initial[phase.address]| == |s.memory[phase.address]|
      && Fits(phase.call, |m.initial[phase.address]|)
      && Knows(m, phase, Register(m, s, phase.address), s.memory[phase.address])
      && (phase.Holds() ==> Alone(s.threads, t, phase.address))
  {
    hide Registers;
    if s.threads[t].Holds() { HolderIsAlone(m, s.held, s.threads, t); }
  }

  lemma TakeAgrees(m: Machine, s: State, t: nat)
    requires Invariant(m, s) && t < |s.threads| && s.threads[t].Called?
    ensures Agrees(m, Take(s, t))
  {
    hide Registers;
    var phase := s.threads[t];
    KnowsOf(m, s, t);
    if !s.held[GuardFor(phase.address)] {
      HolderIsAlone(m, s.held, s.threads, t);
      QuietWhereAlone(s.threads, t, phase.address);
      UnderLockKnows(m, phase, Register(m, s, phase.address));
      assert s.memory[phase.address] == Register(m, s, phase.address);
      hide Knows, Agreement, Legal, Exclusion, Records;
      LookAgrees(m, s, t, UnderLock(phase));
    }
  }

  lemma ReadAgrees(m: Machine, s: State, t: nat)
    requires Invariant(m, s) && t < |s.threads| && s.threads[t].Reading?
    ensures Agrees(m, Go(m, s, t))
  {
    hide Registers;
    var phase := s.threads[t];
    KnowsOf(m, s, t);
    ReadKnows(m, phase, Register(m, s, phase.address));
    hide Knows, Agreement, Legal, Exclusion, Records;
    LookAgrees(m, s, t, Read(phase, s.memory[phase.address]));
  }

  lemma CompareAgrees(m: Machine, s: State, t: nat)
    requires Invariant(m, s) && t < |s.threads| && s.threads[t].Comparing?
    ensures Agrees(m, Go(m, s, t))
  {
    hide Registers;
    var phase := s.threads[t];
    KnowsOf(m, s, t);
    CompareKnows(m, phase, Register(m, s, phase.address));
    assert s.memory[phase.address] == Register(m, s, phase.address);
    hide Knows, Agreement, Legal, Exclusion, Records;
    LookAgrees(m, s, t, Compare(phase, s.memory[phase.address]));
  }

  lemma WriteAgrees(m: Machine, s: State, t: nat)
    requires Invariant(m, s) && t < |s.threads| && s.threads[t].Writing?
    ensures Agrees(m, Go(m, s, t))
  {
    hide Registers, Knows, Agreement, Legal, Exclusion, Records, Apply;
    var phase := s.threads[t];
    KnowsOf(m, s, t);
    WriteKnows(m, phase, Register(m, s, phase.address), s.memory[phase.address]);
    var bytes := s.memory[phase.address];
    if phase.at < |bytes| {
      MoveAgrees(m, s, t, Write(s, t).threads[t], bytes[phase.at := phase.next[phase.at]]);
    } else {
      MoveAgrees(m, s, t, Write(s, t).threads[t], bytes);
      assert s.memory[phase.address := bytes] == s.memory;
    }
  }

  lemma DropAgrees(m: Machine, s: State, t: nat)
    requires Invariant(m, s) && t < |s.threads| && s.threads[t].Dropping?
    ensures Agrees(m, Drop(s, t))
  {
    hide Registers;
    var phase := s.threads[t];
    assert Knows(m, phase, Register(m, s, phase.address), s.memory[phase.address]);
    HolderIsAlone(m, s.held, s.threads, t);
    FinishAgrees(m, s, t, s.memory[phase.address], phase.outcome);
  }

  /** A thread that goes on without taking or dropping its lock. */
  lemma ExclusionMoved(m: Machine, held: seq<bool>, threads: seq<Phase>, t: nat, phase: Phase)
    requires Exclusion(m, held, threads) && t < |threads|
    requires phase.Holds() <==> threads[t].Holds()
    requires phase.Holds() ==> phase.address == threads[t].address
    ensures Exclusion(m, held, threads[t := phase])
  {
    var threads' := threads[t := phase];
    forall g | 0 <= g < LOCKS && held[g]
      ensures exists u :: 0 <= u < |threads'| && threads'[u].Holds() && GuardFor(threads'[u].address) == g
    {
      var u :| 0 <= u < |threads| && threads[u].Holds() && GuardFor(threads[u].address) == g;
      assert threads'[u].Holds() && GuardFor(threads'[u].address) == g;
    }
  }

  lemma ExclusionTaken(m: Machine, held: seq<bool>, threads: seq<Phase>, t: nat, phase: Phase)
    requires Exclusion(m, held, threads) && t < |threads| && !threads[t].Holds()
    requires phase.Holds() && !Paired(m, phase.address) && !held[GuardFor(phase.address)]
    ensures Exclusion(m, held[GuardFor(phase.address) := true], threads[t := phase])
  {
    var held', threads' := held[GuardFor(phase.address) := true], threads[t := phase];
    forall g | 0 <= g < LOCKS && held'[g]
      ensures exists u :: 0 <= u < |threads'| && threads'[u].Holds() && GuardFor(threads'[u].address) == g
    {
      if g == GuardFor(phase.address) {
        assert threads'[t].Holds();
      } else {
        var u :| 0 <= u < |threads| && threads[u].Holds() && GuardFor(threads[u].address) == g;
        assert threads'[u].Holds() && GuardFor(threads'[u].address) == g;
      }
    }
  }

  lemma ExclusionDropped(m: Machine, held: seq<bool>, threads: seq<Phase>, t: nat, phase: Phase)
    requires Exclusion(m, held, threads) && t < |threads| && threads[t].Holds() && !phase.Holds()
    ensures Exclusion(m, held[GuardFor(threads[t].address) := false], threads[t := phase])
  {
    var held', threads' := held[GuardFor(threads[t].address) := false], threads[t := phase];
    forall g | 0 <= g < LOCKS && held'[g]
      ensures exists u :: 0 <= u < |threads'| && threads'[u].Holds() && GuardFor(threads'[u].address) == g
    {
      var u :| 0 <= u < |threads| && threads[u].Holds() && GuardFor(threads[u].address) == g;
      assert threads'[u].Holds() && GuardFor(threads'[u].address) == g;
    }
  }

  /** What a step of a call under way does to the records: nothing, or the call takes effect. */
  ghost predicate Kept(s: State, s': State, t: nat)
    requires t < |s.threads| && s.threads[t].Pending()
  {
    && |s'.threads| == |s.threads|
    && s'.history == s.history && s'.marks == s.marks && s'.log == s.log && s'.place == s.place
    && s'.threads == s.threads[t := s'.threads[t]]
    && s'.threads[t].Pending() && s'.threads[t].id == s.threads[t].id
    && s'.threads[t].address == s.threads[t].address && s'.threads[t].call == s.threads[t].call
  }

  ghost predicate Effected(s: State, s': State, t: nat)
    requires t < |s.threads| && s.threads[t].Pending()
  {
    var phase := s.threads[t];
    exists outcome ::
      && s'.history == s.history && s'.marks == s.marks
      && s'.log == s.log + [Entry(phase.id, phase.address, phase.call, outcome)]
      && s'.place == s.place[phase.id := |s.log|]
      && s'.threads == s.threads[t := Returning(phase.id, outcome)]
  }

  lemma GoKeepsOrEffects(m: Machine, s: State, t: nat)
    requires Sound(m, s) && t < |s.threads| && s.threads[t].Pending()
    ensures Kept(s, Go(m, s, t), t) || Effected(s, Go(m, s, t), t)
  {
    hide Exchanged, Encode, Decode, Put, Applied, Operation, GuardFor, Paired;
    var s' := Go(m, s, t);
    if s'.threads[t].Returning? {
      var outcome := s'.threads[t].outcome;
      assert s'.log == s.log + [Entry(s.threads[t].id, s.threads[t].address, s.threads[t].call, outcome)];
    }
  }

  lemma KeptRecords(s: State, s': State, t: nat)
    requires Records(s) && t < |s.threads| && s.threads[t].Pending() && Kept(s, s', t)
    ensures Records(s')
  {
  }

  lemma MarkedGrows(history: seq<Event>, marks: seq<nat>, log: seq<Entry>, event: Event, e: Entry)
    requires Marked(history, marks, log)
    ensures Marked(history + [event], marks + [|log|], log)
    ensures Marked(history, marks, log + [e])
    ensures |marks| == |history|
  {
  }

  lemma PlacedGrows(history: seq<Event>, marks: seq<nat>, log: seq<Entry>, place: map<nat, nat>, event: Event)
    requires |marks| == |history| && Placed(history, marks, log, place)
    ensures Placed(history + [event], marks + [|log|], log, place)
  {
  }

  lemma PlacedEffected(history: seq<Event>, marks: seq<nat>, log: seq<Entry>, place: map<nat, nat>,
            t: nat, phase: Phase, e: Entry)
    requires Marked(history, marks, log) && Placed(history, marks, log, place)
    requires phase.Pending() && Making(history, place, t, phase)
    requires e.id == phase.id && e.address == phase.address && e.call == phase.call
    ensures Placed(history, marks, log + [e], place[e.id := |log|])
  {
  }

  lemma AnsweredGrows(history: seq<Event>, marks: seq<nat>, log: seq<Entry>, place: map<nat, nat>, event: Event)
    requires |marks| == |history| && Answered(history, marks, log, place)
    requires event.Returned? ==>
      event.id in place && place[event.id] < |log| && log[place[event.id]].outcome == event.answer
    ensures Answered(history + [event], marks + [|log|], log, place)
  {
  }

  lemma AnsweredEffected(history: seq<Event>, marks: seq<nat>, log: seq<Entry>, place: map<nat, nat>, e: Entry)
    requires |marks| == |history| && Answered(history, marks, log, place) && e.id !in place
    ensures Answered(history, marks, log + [e], place[e.id := |log|])
  {
  }

  lemma BusyEffected(history: seq<Event>, log: seq<Entry>, place: map<nat, nat>, threads: seq<Phase>, t: nat, e: Entry)
    requires Busy(history, log, place, threads) && t < |threads| && threads[t].Pending() && e.id == threads[t].id
    ensures Busy(history, log + [e], place[e.id := |log|], threads[t := Returning(e.id, e.outcome)])
  {
    assert Making(history, place, t, threads[t]);
    forall u | 0 <= u < |threads| && u != t && threads[u].Pending()
      ensures Making(history, place[e.id := |log|], u, threads[u])
    {
      assert Making(history, place, u, threads[u]);
    }
  }

  lemma BusyInvoked(history: seq<Event>, log: seq<Entry>, place: map<nat, nat>, threads: seq<Phase>, t: nat,
                    address: Address, call: Call)
    requires Busy(history, log, place, threads) && t < |threads| && |history| !in place
    ensures Busy(history + [Invoked(t, address, call)], log, place, threads[t := Called(|history|, address, call)])
  {
    var history', threads' := history + [Invoked(t, address, call)], threads[t := Called(|history|, address, call)];
    forall u | 0 <= u < |threads'| && threads'[u].Pending() ensures Making(history', place, u, threads'[u]) {
      if u != t { assert Making(history, place, u, threads[u]); }
    }
  }

  lemma AccountedInvoked(history: seq<Event>, place: map<nat, nat>, threads: seq<Phase>, t: nat, address: Address,
                         call: Call)
    requires Accounted(history, place, threads) && t < |threads| && !threads[t].Pending()
    ensures Accounted(history + [Invoked(t, address, call)], place, threads[t := Called(|history|, address, call)])
  {
    var history', threads' := history + [Invoked(t, address, call)], threads[t := Called(|history|, address, call)];
    forall k | 0 <= k < |history'| && history'[k].Invoked?
      ensures k in place || IsMaking(threads', history'[k].thread, k)
    {
      if k < |history| { assert history'[k] == history[k]; }
    }
  }

  lemma AccountedEffected(history: seq<Event>, place: map<nat, nat>, threads: seq<Phase>, t: nat, e: Entry, p: nat)
    requires Accounted(history, place, threads) && t < |threads| && threads[t].Pending() && e.id == threads[t].id
    ensures Accounted(history, place[e.id := p], threads[t := Returning(e.id, e.outcome)])
  {
  }

  lemma AccountedReturned(history: seq<Event>, place: map<nat, nat>, threads: seq<Phase>, t: nat, id: nat,
                          answer: Outcome)
    requires Accounted(history, place, threads) && t < |threads| && !threads[t].Pending()
    ensures Accounted(history + [Returned(id, answer)], place, threads[t := Idle])
  {
    var history' := history + [Returned(id, answer)];
    forall k | 0 <= k < |history'| && history'[k].Invoked?
      ensures k in place || IsMaking(threads[t := Idle], history'[k].thread, k)
    {
      assert history'[k] == history[k];
    }
  }

  lemma BusyReturned(history: seq<Event>, log: seq<Entry>, place: map<nat, nat>, threads: seq<Phase>, t: nat,
            event: Event)
    requires Busy(history, log, place, threads) && t < |threads| && event.Returned?
    ensures Busy(history + [event], log, place, threads[t := Idle])
  {
    forall u | 0 <= u < |threads| && u != t && threads[u].Pending()
      ensures Making(history + [event], place, u, threads[u])
    {
      assert Making(history, place, u, threads[u]);
    }
  }

  lemma MakingOf(history: seq<Event>, log: seq<Entry>, place: map<nat, nat>, threads: seq<Phase>, t: nat)
    requires Busy(history, log, place, threads) && t < |threads| && threads[t].Pending()
    ensures Making(history, place, t, threads[t])
  {
  }

  lemma AnswerIsLogged(history: seq<Event>, log: seq<Entry>, place: map<nat, nat>, threads: seq<Phase>, t: nat)
    requires Busy(history, log, place, threads) && t < |threads| && threads[t].Returning?
    ensures threads[t].id in place && place[threads[t].id] < |log|
    ensures log[place[threads[t].id]].outcome == threads[t].outcome
  {
  }

  lemma NotYetPlaced(history: seq<Event>, marks: seq<nat>, log: seq<Entry>, place: map<nat, nat>)
    requires |marks| == |history| && Placed(history, marks, log, place)
    ensures |history| !in place
  {
  }

  lemma EffectedRecords(s: State, s': State, t: nat)
    requires Records(s) && t < |s.threads| && s.threads[t].Pending() && Effected(s, s', t)
    ensures Records(s')
  {
    hide Marked, Placed, Answered, Busy, Accounted;
    var phase := s.threads[t];
    var outcome :| && s'.log == s.log + [Entry(phase.id, phase.address, phase.call, outcome)]
                   && s'.threads == s.threads[t := Returning(phase.id, outcome)];
    var e := Entry(phase.id, phase.address, phase.call, outcome);
    MakingOf(s.history, s.log, s.place, s.threads, t);
    MarkedGrows(s.history, s.marks, s.log, Invoked(t, phase.address, phase.call), e);
    PlacedEffected(s.history, s.marks, s.log, s.place, t, phase, e);
    AnsweredEffected(s.history, s.marks, s.log, s.place, e);
    BusyEffected(s.history, s.log, s.place, s.threads, t, e);
    AccountedEffected(s.history, s.place, s.threads, t, e, |s.log|);
  }

  lemma InvokedRecords(s: State, t: nat, address: Address, call: Call)
    requires Records(s) && t < |s.threads| && s.threads[t].Idle?
    ensures var history, marks := s.history + [Invoked(t, address, call)], s.marks + [|s.log|];
      var threads := s.threads[t := Called(|s.history|, address, call)];
      && Marked(history, marks, s.log) && Placed(history, marks, s.log, s.place)
      && Answered(history, marks, s.log, s.place)
      && Busy(history, s.log, s.place, threads) && Accounted(history, s.place, threads)
  {
    hide Marked, Placed, Answered, Busy, Accounted;
    var event := Invoked(t, address, call);
    MarkedGrows(s.history, s.marks, s.log, event, Entry(0, address, call, Done));
    NotYetPlaced(s.history, s.marks, s.log, s.place);
    PlacedGrows(s.history, s.marks, s.log, s.place, event);
    AnsweredGrows(s.history, s.marks, s.log, s.place, event);
    BusyInvoked(s.history, s.log, s.place, s.threads, t, address, call);
    AccountedInvoked(s.history, s.place, s.threads, t, address, call);
  }

  lemma ReturnedRecords(s: State, t: nat)
    requires Records(s) && t < |s.threads| && s.threads[t].Returning?
    ensures var phase := s.threads[t];
      var history, marks := s.history + [Returned(phase.id, phase.outcome)], s.marks + [|s.log|];
      && Marked(history, marks, s.log) && Placed(history, marks, s.log, s.place)
      && Answered(history, marks, s.log, s.place)
      && Busy(history, s.log, s.place, s.threads[t := Idle]) && Accounted(history, s.place, s.threads[t := Idle])
  {
    hide Marked, Placed, Answered, Busy, Accounted;
    AnswerIsLogged(s.history, s.log, s.place, s.threads, t);
    var event := Returned(s.threads[t].id, s.threads[t].outcome);
    MarkedGrows(s.history, s.marks, s.log, event, Entry(0, 0, Load, Done));
    PlacedGrows(s.history, s.marks, s.log, s.place, event);
    AnsweredGrows(s.history, s.marks, s.log, s.place, event);
    BusyReturned(s.history, s.log, s.place, s.threads, t, event);
    AccountedReturned(s.history, s.place, s.threads, t, event.id, event.answer);
  }

  lemma AgreementIsSound(m: Machine, s: State)
    requires Agreement(m, s.memory, s.threads, Registers(m.initial, s.log)) && |s.held| == LOCKS
    ensures Sound(m, s)
  {
    hide Registers;
  }

  lemma GoAgrees(m: Machine, s: State, t: nat)
    requires Invariant(m, s) && t < |s.threads| && s.threads[t].Pending()
    ensures Agrees(m, Go(m, s, t))
  {
    hide Registers, Agreement, Legal, Exclusion, Records, Apply, Agrees;
    match s.threads[t] {
      case Called(_, address, _) => if Paired(m, address) { BeginPairedAgrees(m, s, t); } else { TakeAgrees(m, s, t); }
      case Guessing(_, _, _, _) => GuessAgrees(m, s, t);
      case Reading(_, _, _, _) => ReadAgrees(m, s, t);
      case Comparing(_, _, _, _) => CompareAgrees(m, s, t);
      case Writing(_, _, _, _, _, _) => WriteAgrees(m, s, t);
      case Dropping(_, _, _, _) => DropAgrees(m, s, t);
    }
  }

  /** What a step does to the locks. */
  lemma GoLocks(m: Machine, s: State, t: nat)
    requires Sound(m, s) && t < |s.threads| && s.threads[t].Pending()
    ensures var phase, s' := s.threads[t], Go(m, s, t);
      && t < |s'.threads| && s'.threads == s.threads[t := s'.threads[t]]
      && (s'.threads[t].Holds() ==> s'.threads[t].address == phase.address)
      && if phase.Dropping? then !s'.threads[t].Holds() && s'.held == s.held[GuardFor(phase.address) := false]
         else if phase.Called? && !Paired(m, phase.address) && !s.held[GuardFor(phase.address)] then
           s'.threads[t].Holds() && s'.held == s.held[GuardFor(phase.address) := true]
         else s'.held == s.held && (s'.threads[t].Holds() <==> phase.Holds())
  {
    hide Exchanged, Encode, Decode, Put, Applied, Operation, GuardFor, Paired;
  }

  lemma GoExcludes(m: Machine, s: State, t: nat)
    requires Invariant(m, s) && t < |s.threads| && s.threads[t].Pending()
    ensures Exclusion(m, Go(m, s, t).held, Go(m, s, t).threads) && |Go(m, s, t).held| == LOCKS
  {
    hide Registers;
    var phase, s' := s.threads[t], Go(m, s, t);
    GoLocks(m, s, t);
    hide Agreement, Legal, Records, Go, Exclusion;
    if phase.Dropping? {
      ExclusionDropped(m, s.held, s.threads, t, s'.threads[t]);
    } else if phase.Called? && !Paired(m, phase.address) && !s.held[GuardFor(phase.address)] {
      ExclusionTaken(m, s.held, s.threads, t, s'.threads[t]);
    } else {
      ExclusionMoved(m, s.held, s.threads, t, s'.threads[t]);
    }
  }

  lemma GoKeeps(m: Machine, s: State, t: nat)
    requires Invariant(m, s) && t < |s.threads| && s.threads[t].Pending()
    ensures Invariant(m, Go(m, s, t))
  {
    hide Registers, Agreement, Legal, Exclusion, Records, Kept, Effected, Go, Sound;
    var s' := Go(m, s, t);
    GoAgrees(m, s, t);
    GoExcludes(m, s, t);
    GoKeepsOrEffects(m, s, t);
    if Kept(s, s', t) { KeptRecords(s, s', t); } else { EffectedRecords(s, s', t); }
    AgreementIsSound(m, s');
  }

  lemma InvokeKeeps(m: Machine, s: State, step: Step)
    requires Invariant(m, s) && Enabled(m, s, step) && step.Invoke?
    ensures Invariant(m, After(m, s, step))
  {
    hide Registers;
    var t, phase := step.thread, Called(|s.history|, step.address, step.call);
    AgreementMoved(m, s.memory, s.threads, Registers(m.initial, s.log), t, phase);
    ExclusionMoved(m, s.held, s.threads, t, phase);
    InvokedRecords(s, t, step.address, step.call);
    assert |s.held| == LOCKS;
    hide Agreement, Legal, Exclusion, Marked, Placed, Answered, Busy;
    AgreementIsSound(m, After(m, s, step));
  }

  lemma ReturnKeeps(m: Machine, s: State, step: Step)
    requires Invariant(m, s) && Enabled(m, s, step) && step.Return?
    ensures Invariant(m, After(m, s, step))
  {
    hide Registers;
    assert |s.held| == LOCKS;
    hide Agreement, Legal, Exclusion, Marked, Placed, Answered, Busy, Sound;
    IdleKeeps(m, s, step.thread, After(m, s, step));
    ReturnedRecords(s, step.thread);
    AgreementIsSound(m, After(m, s, step));
  }

  lemma IdleKeeps(m: Machine, s: State, t: nat, s': State)
    requires Agreement(m, s.memory, s.threads, Registers(m.initial, s.log)) && Exclusion(m, s.held, s.threads)
    requires t < |s.threads| && s.threads[t].Returning?
    requires s'.memory == s.memory && s'.log == s.log && s'.held == s.held && s'.threads == s.threads[t := Idle]
    ensures Agreement(m, s'.memory, s'.threads, Registers(m.initial, s'.log)) && Exclusion(m, s'.held, s'.threads)
  {
    hide Registers;
    hide Agreement, Exclusion;
    AgreementMoved(m, s.memory, s.threads, Registers(m.initial, s.log), t, Idle);
    ExclusionMoved(m, s.held, s.threads, t, Idle);
  }

  /** Every step of every thread keeps the invariant. */
  lemma StepKeeps(m: Machine, s: State, step: Step)
    requires Invariant(m, s) && Enabled(m, s, step)
    ensures Invariant(m, After(m, s, step))
  {
    match step {
      case Invoke(_, _, _) => InvokeKeeps(m, s, step);
      case Advance(t) => GoKeeps(m, s, t);
      case Return(_) => ReturnKeeps(m, s, step);
    }
  }

  /** What is seen from outside is that a call was made, with what it was handed, and what it answered. */
  lemma StepIsSeen(m: Machine, s: State, step: Step)
    requires Sound(m, s) && Enabled(m, s, step)
    ensures After(m, s, step).history == s.history + match step
              case Invoke(t, address, call) => [Invoked(t, address, call)]
              case Advance(_) => []
              case Return(t) => [Returned(s.threads[t].id, s.threads[t].outcome)]
  {
    if step.Advance? {
      hide Go;
      GoKeepsOrEffects(m, s, step.thread);
    }
  }

  /** So every state of every run has it. */
  lemma {:induction false} RunKeeps(m: Machine, states: seq<State>, k: nat)
    requires Run(m, states) && k < |states|
    ensures Invariant(m, states[k])
  {
    if k == 0 {
      InitiallyInvariant(m, states[0]);
    } else {
      RunKeeps(m, states, k - 1);
      assert Next(m, states[k - 1], states[k]);
      var step: Step :| Enabled(m, states[k - 1], step) && states[k] == After(m, states[k - 1], step);
      StepKeeps(m, states[k - 1], step);
    }
  }

  /** A history is explained by an order of its calls (linearizability, as Herlihy and Wing have it): every call
    * answers what the calls before it in the order left in its object; every call that answered is in the order, once;
    * and a call that had answered before another was made comes before it.
    */
  ghost predicate Linearizes(m: Machine, history: seq<Event>, log: seq<Entry>) {
    && (forall p | 0 <= p < |log| :: Explained(m.initial, log[..p], log[p]))
    && (forall p | 0 <= p < |log| ::
          log[p].id < |history| && Makes(history[log[p].id], log[p].address, log[p].call))
    && (forall p, q | 0 <= p < |log| && 0 <= q < |log| && p != q :: log[p].id != log[q].id)
    && (forall k | 0 <= k < |history| && history[k].Returned? ::
          exists p :: 0 <= p < |log| && log[p].id == history[k].id && log[p].outcome == history[k].answer)
    && (forall p, q, k | 0 <= p < |log| && 0 <= q < |log| && 0 <= k < log[q].id && history[k].Returned? ::
          history[k].id == log[p].id ==> p < q)
  }

  lemma RecordsLinearize(m: Machine, s: State)
    requires Records(s) && Legal(m.initial, s.log)
    ensures Linearizes(m, s.history, s.log)
  {
    hide Legal, Busy, Explained;
    forall p | 0 <= p < |s.log| ensures Explained(m.initial, s.log[..p], s.log[p]) {
      LegalExplains(m.initial, s.log, p);
    }
    forall k | 0 <= k < |s.history| && s.history[k].Returned?
      ensures exists p :: 0 <= p < |s.log| && s.log[p].id == s.history[k].id && s.log[p].outcome == s.history[k].answer
    {
      var p := s.place[s.history[k].id];
      assert s.log[p].id == s.history[k].id;
    }
    forall p, q, k | 0 <= p < |s.log| && 0 <= q < |s.log| && 0 <= k < s.log[q].id && s.history[k].Returned?
                     && s.history[k].id == s.log[p].id
      ensures p < q
    {
      assert s.place[s.log[p].id] == p && s.place[s.log[q].id] == q;
      assert s.marks[k] <= s.marks[s.log[q].id];
    }
  }

  /** Every run of any threads making any calls on any objects is linearizable. */
  lemma EveryRunLinearizes(m: Machine, states: seq<State>, k: nat)
    requires Run(m, states) && k < |states|
    ensures Linearizes(m, states[k].history, states[k].log)
  {
    RunKeeps(m, states, k);
    RecordsLinearize(m, states[k]);
  }

  /** Two threads never hold one lock at once, in any state of any run. */
  lemma LocksExclude(m: Machine, states: seq<State>, k: nat, t: nat, u: nat)
    requires Run(m, states) && k < |states|
    requires t < |states[k].threads| && u < |states[k].threads|
    requires states[k].threads[t].Holds() && states[k].threads[u].Holds()
    requires GuardFor(states[k].threads[t].address) == GuardFor(states[k].threads[u].address)
    ensures t == u
  {
    RunKeeps(m, states, k);
  }

  /** Whether a call takes the lock or loops on the instruction is decided by the size, the address and the processor
    * alone, so that no object is ever reached both ways.
    */
  lemma PathIsDecided(m: Machine, states: seq<State>, k: nat, t: nat)
    requires Run(m, states) && k < |states| && t < |states[k].threads| && states[k].threads[t].Pending()
    ensures var phase := states[k].threads[t];
      && phase.address in m.initial
      && var pair := |m.initial[phase.address]| == 16 && phase.address % 16 == 0 && m.cx16;
         (phase.Holds() ==> !pair) && (phase.Guessing? ==> pair)
  {
    RunKeeps(m, states, k);
    hide Registers, Records, Legal;
    KnowsOf(m, states[k], t);
  }

  /** A call that was made is in the order or is still under way, in the thread that made it. */
  lemma CallsAreAccounted(m: Machine, states: seq<State>, k: nat, i: nat)
    requires Run(m, states) && k < |states| && i < |states[k].history| && states[k].history[i].Invoked?
    ensures var s := states[k];
      (exists p :: 0 <= p < |s.log| && s.log[p].id == i) || IsMaking(s.threads, s.history[i].thread, i)
  {
    RunKeeps(m, states, k);
    AccountedFor(states[k], i);
  }

  lemma AccountedFor(s: State, i: nat)
    requires Records(s) && i < |s.history| && s.history[i].Invoked?
    ensures (exists p :: 0 <= p < |s.log| && s.log[p].id == i) || IsMaking(s.threads, s.history[i].thread, i)
  {
    hide Marked, Answered, Busy;
    if i in s.place { assert s.log[s.place[i]].id == i; }
  }

  /** Where no call is under way, memory is what the calls leave in the registers. */
  lemma MemoryAtRest(m: Machine, states: seq<State>, k: nat, a: Address)
    requires Run(m, states) && k < |states| && a in m.initial
    requires var s := states[k]; forall t | 0 <= t < |s.threads| :: !s.threads[t].Pending()
    ensures var s := states[k];
      a in s.memory && s.memory[a] == Registers(m.initial, s.log)[a] && Holds(m.initial, s.log, a, s.memory[a])
  {
    RunKeeps(m, states, k);
    assert Quiet(states[k].threads, a);
    hide Registers;
    RegisterHolds(m.initial, states[k].log, a);
  }

  /** So what was stored is in memory, where nothing wrote the object after it. */
  lemma StoreIsThere(m: Machine, states: seq<State>, k: nat, a: Address, q: nat)
    requires Run(m, states) && k < |states| && a in m.initial
    requires var s := states[k];
      && (forall t | 0 <= t < |s.threads| :: !s.threads[t].Pending())
      && LastWrite(s.log, a, q) && s.log[q].call.Store?
    ensures var s := states[k];
      a in s.memory && s.memory[a] == s.log[q].call.value
  {
    hide *;
    MemoryAtRest(m, states, k, a);
    LastStoreHolds(m.initial, states[k].log, a, q, states[k].memory[a]);
  }

  // What a call adds to an object.
  function Amount(address: Address, call: Call, a: Address): nat {
    if address == a && call.Fetch? && call.rmw == ADD then call.operand else 0
  }

  /** All that the calls made so far were to add. */
  function Asked(history: seq<Event>, a: Address): nat {
    if history == [] then 0
    else
      var event := history[|history| - 1];
      Asked(history[..|history| - 1], a) + if event.Invoked? then Amount(event.address, event.call, a) else 0
  }

  /** All that the calls that took effect added. */
  function Added(log: seq<Entry>, a: Address): nat {
    if log == [] then 0
    else Added(log[..|log| - 1], a) + Amount(log[|log| - 1].address, log[|log| - 1].call, a)
  }

  function Share(phase: Phase, a: Address): nat {
    if phase.Pending() then Amount(phase.address, phase.call, a) else 0
  }

  /** All that the calls under way have yet to add. */
  function Owed(threads: seq<Phase>, a: Address): nat {
    if threads == [] then 0 else Owed(threads[..|threads| - 1], a) + Share(threads[|threads| - 1], a)
  }

  lemma {:induction false} OwedAfter(threads: seq<Phase>, t: nat, phase: Phase, a: Address)
    requires t < |threads|
    ensures Owed(threads[t := phase], a) == Owed(threads, a) - Share(threads[t], a) + Share(phase, a)
  {
    var n := |threads| - 1;
    if t < n {
      OwedAfter(threads[..n], t, phase, a);
      assert threads[t := phase][..n] == threads[..n][t := phase];
    } else {
      assert threads[t := phase][..n] == threads[..n];
    }
  }

  lemma {:induction false} NothingOwed(threads: seq<Phase>, a: Address)
    requires forall t | 0 <= t < |threads| :: !threads[t].Pending()
    ensures Owed(threads, a) == 0
  {
    if threads != [] { NothingOwed(threads[..|threads| - 1], a); }
  }

  lemma AskedAfter(history: seq<Event>, event: Event, a: Address)
    ensures Asked(history + [event], a)
            == Asked(history, a) + if event.Invoked? then Amount(event.address, event.call, a) else 0
  {
    assert (history + [event])[..|history|] == history;
  }

  lemma AddedAfter(log: seq<Entry>, e: Entry, a: Address)
    ensures Added(log + [e], a) == Added(log, a) + Amount(e.address, e.call, a)
  {
    assert (log + [e])[..|log|] == log;
  }

  /** What is asked for is added or still owed. */
  ghost predicate Conserved(s: State, a: Address) { Asked(s.history, a) == Added(s.log, a) + Owed(s.threads, a) }

  lemma KeptConserves(s: State, s': State, t: nat, a: Address)
    requires t < |s.threads| && s.threads[t].Pending() && Kept(s, s', t) && Conserved(s, a)
    ensures Conserved(s', a)
  {
    hide Asked, Added, Owed, Amount;
    OwedAfter(s.threads, t, s'.threads[t], a);
  }

  lemma EffectedConserves(s: State, s': State, t: nat, a: Address)
    requires t < |s.threads| && s.threads[t].Pending() && Effected(s, s', t) && Conserved(s, a)
    ensures Conserved(s', a)
  {
    hide Asked, Added, Owed, Amount;
    var phase := s.threads[t];
    var outcome :| && s'.log == s.log + [Entry(phase.id, phase.address, phase.call, outcome)]
                   && s'.threads == s.threads[t := Returning(phase.id, outcome)] && s'.history == s.history;
    AddedAfter(s.log, Entry(phase.id, phase.address, phase.call, outcome), a);
    OwedAfter(s.threads, t, Returning(phase.id, outcome), a);
  }

  /** So it is after every step. */
  lemma StepConserves(m: Machine, s: State, step: Step, a: Address)
    requires Sound(m, s) && Enabled(m, s, step) && Conserved(s, a)
    ensures Conserved(After(m, s, step), a)
  {
    hide Asked, Added, Owed, Amount, Go, Kept, Effected, Sound;
    var t, s' := step.thread, After(m, s, step);
    match step {
      case Invoke(_, address, call) =>
        AskedAfter(s.history, Invoked(t, address, call), a);
        OwedAfter(s.threads, t, Called(|s.history|, address, call), a);
      case Advance(_) =>
        GoKeepsOrEffects(m, s, t);
        if Kept(s, s', t) { KeptConserves(s, s', t, a); } else { EffectedConserves(s, s', t, a); }
      case Return(_) =>
        AskedAfter(s.history, Returned(s.threads[t].id, s.threads[t].outcome), a);
        OwedAfter(s.threads, t, Idle, a);
    }
  }

  lemma {:induction false} RunConserves(m: Machine, states: seq<State>, k: nat, a: Address)
    requires Run(m, states) && k < |states|
    ensures Conserved(states[k], a)
  {
    hide Sound, Enabled, After;
    if k == 0 {
      NothingOwed(states[0].threads, a);
    } else {
      RunConserves(m, states, k - 1, a);
      assert Next(m, states[k - 1], states[k]);
      var step: Step :| Sound(m, states[k - 1]) && Enabled(m, states[k - 1], step)
                        && states[k] == After(m, states[k - 1], step);
      StepConserves(m, states[k - 1], step, a);
    }
  }

  // Nothing is done to the object but adding to it and reading it.
  predicate OnlyAdds(address: Address, call: Call, a: Address) {
    address == a ==> call.Load? || (call.Fetch? && call.rmw == ADD)
  }

  lemma ModuloAdds(x: nat, y: nat, r: nat)
    requires r > 0
    ensures (x % r + y) % r == (x + y) % r
  {
    DivModFacts(x, r);
    DivModFacts(x + y, r);
    Distribute((x + y) / r, x / r, r);
    DivModUnique(x % r + y, r, (x + y) / r - x / r, (x + y) % r);
  }

  lemma AddsOne(was: seq<Byte>, operand: nat)
    ensures |Apply(Fetch(ADD, operand), was).bytes| == 16
    ensures Decode(Apply(Fetch(ADD, operand), was).bytes) == (Decode(was) + operand) % RANGE
  {
    SixteenBytes();
    hide Pow2, Encode, Decode;
    DecodeEncodes((Decode(was) + operand) % RANGE, 16);
  }

  /** What a register that is only added to holds. */
  ghost predicate AddsUp(initial: map<Address, seq<Byte>>, log: seq<Entry>, a: Address)
    requires a in initial
  {
    var register := Registers(initial, log)[a];
    |register| == 16 && Decode(register) == (Decode(initial[a]) + Added(log, a)) % RANGE
  }

  lemma AddsUpAfter(initial: map<Address, seq<Byte>>, log: seq<Entry>, e: Entry, a: Address)
    requires a in initial && e.address in initial && OnlyAdds(e.address, e.call, a) && AddsUp(initial, log, a)
    ensures AddsUp(initial, log + [e], a)
  {
    hide Encode, Decode, Put;
    assert (log + [e])[..|log|] == log;
    var was := Registers(initial, log)[a];
    if e.address == a && e.call.Fetch? {
      AddsOne(was, e.call.operand);
      ModuloAdds(Decode(initial[a]) + Added(log, a), e.call.operand, RANGE);
    }
  }

  lemma {:induction false} AddsAccumulate(initial: map<Address, seq<Byte>>, log: seq<Entry>, a: Address)
    requires a in initial && |initial[a]| == 16 && Legal(initial, log)
    requires forall p | 0 <= p < |log| :: OnlyAdds(log[p].address, log[p].call, a)
    ensures var register := Registers(initial, log)[a];
      |register| == 16 && Decode(register) == (Decode(initial[a]) + Added(log, a)) % RANGE
  {
    hide Pow2, Legal, Encode, Decode, Put, OnlyAdds, Apply;
    if log == [] {
      SixteenBytes();
      DecodeBelow(initial[a]);
      assert Added(log, a) == 0 && Decode(initial[a]) < RANGE;
    } else {
      var before, e := log[..|log| - 1], log[|log| - 1];
      LegalPrefix(initial, log, |log| - 1);
      LegalAt(initial, log, |log| - 1);
      AddsAccumulate(initial, before, a);
      assert log == before + [e];
      AddsUpAfter(initial, before, e, a);
    }
  }

  /** What an object of sixteen bytes holds after so much was added to it. */
  ghost function Sum(initial: map<Address, seq<Byte>>, a: Address, added: nat): nat
    requires a in initial
  {
    (Decode(initial[a]) + added) % RANGE
  }

  lemma LogOnlyAdds(s: State, a: Address)
    requires Records(s)
    requires forall k | 0 <= k < |s.history| && s.history[k].Invoked? ::
          OnlyAdds(s.history[k].address, s.history[k].call, a)
    ensures forall p | 0 <= p < |s.log| :: OnlyAdds(s.log[p].address, s.log[p].call, a)
  {
    hide OnlyAdds, Answered, Busy;
    forall p | 0 <= p < |s.log| ensures OnlyAdds(s.log[p].address, s.log[p].call, a) {
      assert Makes(s.history[s.log[p].id], s.log[p].address, s.log[p].call);
    }
  }

  /** Threads that add to one object lose none of what they add, whatever the interleaving. */
  lemma NoUpdateIsLost(m: Machine, states: seq<State>, k: nat, a: Address)
    requires Run(m, states) && k < |states| && a in m.initial && |m.initial[a]| == 16
    requires var s := states[k];
      && (forall t | 0 <= t < |s.threads| :: !s.threads[t].Pending())
      && (forall i | 0 <= i < |s.history| && s.history[i].Invoked? ::
            OnlyAdds(s.history[i].address, s.history[i].call, a))
    ensures var s := states[k];
      a in s.memory && Decode(s.memory[a]) == Sum(m.initial, a, Asked(s.history, a))
  {
    hide *;
    var s := states[k];
    MemoryAtRest(m, states, k, a);
    RunKeeps(m, states, k);
    RunConserves(m, states, k, a);
    NothingOwed(s.threads, a);
    ConservedSum(s, a);
    AddedInOrder(m, s, a);
  }

  lemma ConservedSum(s: State, a: Address)
    requires Conserved(s, a)
    ensures Asked(s.history, a) == Added(s.log, a) + Owed(s.threads, a)
  {
  }

  lemma AddedInOrder(m: Machine, s: State, a: Address)
    requires Invariant(m, s) && a in m.initial && |m.initial[a]| == 16
    requires forall k | 0 <= k < |s.history| && s.history[k].Invoked? ::
          OnlyAdds(s.history[k].address, s.history[k].call, a)
    ensures Decode(Registers(m.initial, s.log)[a]) == Sum(m.initial, a, Added(s.log, a))
  {
    hide Agreement, Exclusion, Legal, Marked, Placed, Answered, Busy, Sound, OnlyAdds;
    LogOnlyAdds(s, a);
    AddsAccumulate(m.initial, s.log, a);
  }

  /** How many steps of its own a thread is from dropping the lock it holds. */
  function Work(phase: Phase, size: nat): int {
    match phase
    case Comparing(_, _, _, at) => 3 * size + 4 - at
    case Reading(_, _, _, got) => 2 * size + 3 - |got|
    case Writing(_, _, _, _, at, _) => size + 2 - at
    case Dropping(_, _, _, _) => 1
    case _ => 0
  }

  lemma WorkShrinks(m: Machine, s: State, t: nat, size: nat)
    requires Sound(m, s) && t < |s.threads| && s.threads[t].Holds()
    requires size == |s.memory[s.threads[t].address]|
    requires s.threads[t].Reading? ==> |s.threads[t].got| <= size
    requires s.threads[t].Comparing? ==> s.threads[t].at <= size
    requires s.threads[t].Writing? ==> s.threads[t].at <= size
    ensures 0 < Work(s.threads[t], size) <= 3 * size + 4
    ensures var phase := Go(m, s, t).threads[t];
      if phase.Holds() then Work(phase, size) < Work(s.threads[t], size) else s.threads[t].Dropping?
  {
  }

  /** A held lock has a holder, and the holder does not wait: each step of it brings it nearer to dropping the lock,
    * and the last one drops it.
    */
  lemma LocksAreDropped(m: Machine, states: seq<State>, k: nat, g: nat) returns (t: nat)
    requires Run(m, states) && k < |states| && g < LOCKS && |states[k].held| == LOCKS && states[k].held[g]
    ensures t < |states[k].threads| && states[k].threads[t].Holds() && GuardFor(states[k].threads[t].address) == g
    ensures Sound(m, states[k]) && states[k].threads[t].address in m.initial
    ensures var s, size := states[k], |m.initial[states[k].threads[t].address]|;
      var s' := Go(m, s, t);
      && 0 < Work(s.threads[t], size) <= 3 * size + 4
      && t < |s'.threads| && |s'.held| == LOCKS
      && if s'.threads[t].Holds() then Work(s'.threads[t], size) < Work(s.threads[t], size) else !s'.held[g]
  {
    RunKeeps(m, states, k);
    t := HolderOf(m, states[k].held, states[k].threads, g);
    HolderWorks(m, states[k], t);
  }

  lemma HolderOf(m: Machine, held: seq<bool>, threads: seq<Phase>, g: nat) returns (t: nat)
    requires Exclusion(m, held, threads) && g < LOCKS && held[g]
    ensures t < |threads| && threads[t].Holds() && GuardFor(threads[t].address) == g
  {
    t :| 0 <= t < |threads| && threads[t].Holds() && GuardFor(threads[t].address) == g;
  }

  lemma HolderWorks(m: Machine, s: State, t: nat)
    requires Invariant(m, s) && t < |s.threads| && s.threads[t].Holds()
    ensures s.threads[t].address in m.initial
    ensures var size, s' := |m.initial[s.threads[t].address]|, Go(m, s, t);
      && 0 < Work(s.threads[t], size) <= 3 * size + 4
      && t < |s'.threads| && |s'.held| == LOCKS
      && if s'.threads[t].Holds() then Work(s'.threads[t], size) < Work(s.threads[t], size)
         else !s'.held[GuardFor(s.threads[t].address)]
  {
    hide Agreement, Exclusion, Records, Legal, Apply, Go, Work;
    KnowsOf(m, s, t);
    GoLocks(m, s, t);
    var size := |m.initial[s.threads[t].address]|;
    WorkShrinks(m, s, t, size);
  }

  /** The order of the calls and the history only grow. */
  lemma {:induction false} LogGrows(m: Machine, states: seq<State>, i: nat, j: nat)
    requires Run(m, states) && i <= j < |states|
    ensures states[i].log <= states[j].log && states[i].history <= states[j].history
  {
    hide Sound, Enabled, After, Initial;
    if i < j {
      LogGrows(m, states, i, j - 1);
      assert Next(m, states[j - 1], states[j]);
      var step: Step :| Sound(m, states[j - 1]) && Enabled(m, states[j - 1], step)
                        && states[j] == After(m, states[j - 1], step);
      StepGrows(m, states[j - 1], step);
    }
  }

  lemma StepGrows(m: Machine, s: State, step: Step)
    requires Sound(m, s) && Enabled(m, s, step)
    ensures s.log <= After(m, s, step).log && s.history <= After(m, s, step).history
  {
    if step.Advance? {
      hide Go;
      GoKeepsOrEffects(m, s, step.thread);
    }
  }

  /** A register is changed by calls on its object and by no others. */
  lemma {:induction false} RegisterUnchanged(initial: map<Address, seq<Byte>>, log: seq<Entry>, longer: seq<Entry>,
                                             a: Address)
    requires a in initial && log <= longer
    requires forall p | |log| <= p < |longer| :: longer[p].address != a
    ensures Registers(initial, longer)[a] == Registers(initial, log)[a]
  {
    if |longer| == |log| {
      assert longer == log;
    } else {
      RegisterUnchanged(initial, log, longer[..|longer| - 1], a);
    }
  }

  /** What the instruction reaches is at every moment what the calls so far leave in the register. */
  lemma PairedIsRegister(m: Machine, s: State, a: Address)
    requires Invariant(m, s) && Paired(m, a)
    ensures a in s.memory && s.memory[a] == Register(m, s, a)
  {
    hide Registers;
    assert Quiet(s.threads, a);
  }

  /** The loop of `fetched` makes progress for somebody: where a guess that was read at one moment of a run is wrong
    * at a later one, another thread's call on the object has taken effect in between.
    */
  lemma GuessFailsAfterAnotherCall(m: Machine, states: seq<State>, i: nat, j: nat, t: nat) returns (p: nat)
    requires Run(m, states) && i < j < |states|
    requires Sound(m, states[i]) && t < |states[i].threads| && states[i].threads[t].Guessing?
    requires states[i + 1] == Go(m, states[i], t) && states[i + 1].threads[t].Guessing?
    requires Sound(m, states[j]) && t < |states[j].threads| && states[j].threads[t] == states[i + 1].threads[t]
    requires Go(m, states[j], t).threads[t].Guessing?
    ensures |states[i].log| <= p < |states[j].log|
    ensures states[j].log[p].address == states[j].threads[t].address
    ensures var id := states[j].log[p].id;
      id < |states[j].history| && states[j].history[id].Invoked? && states[j].history[id].thread != t
  {
    hide *;
    RunKeeps(m, states, i);
    RunKeeps(m, states, j);
    LogGrows(m, states, i, j);
    LookedAt(m, states[i], states[j], t);
    p := EntryBetween(m, states[i], states[j], states[j].threads[t].address);
    RecordsOf(m, states[i]);
    RecordsOf(m, states[j]);
    OthersTakeEffect(states[i], states[j], t, p);
  }

  lemma RecordsOf(m: Machine, s: State)
    requires Invariant(m, s)
    ensures Records(s)
  {
  }

  lemma LookedAt(m: Machine, s: State, s': State, t: nat)
    requires Invariant(m, s) && Invariant(m, s')
    requires t < |s.threads| && s.threads[t].Guessing? && Go(m, s, t).threads[t].Guessing?
    requires t < |s'.threads| && s'.threads[t] == Go(m, s, t).threads[t] && Go(m, s', t).threads[t].Guessing?
    ensures Paired(m, s'.threads[t].address) && s'.threads[t].address in s.memory && s'.threads[t].address in s'.memory
    ensures s.memory[s'.threads[t].address] != s'.memory[s'.threads[t].address]
    ensures s.threads[t].Pending() && s'.threads[t].Pending() && s.threads[t].id == s'.threads[t].id
  {
    hide Registers, Records, Exclusion, Legal;
    KnowsOf(m, s', t);
  }

  lemma EntryBetween(m: Machine, s: State, s': State, a: Address) returns (p: nat)
    requires Invariant(m, s) && Invariant(m, s') && s.log <= s'.log && Paired(m, a)
    requires a in s.memory && a in s'.memory && s.memory[a] != s'.memory[a]
    ensures |s.log| <= p < |s'.log| && s'.log[p].address == a
  {
    hide Registers, Records, Exclusion, Agreement, Legal, Sound;
    PairedIsRegister(m, s, a);
    PairedIsRegister(m, s', a);
    if forall q | |s.log| <= q < |s'.log| :: s'.log[q].address != a { RegisterUnchanged(m.initial, s.log, s'.log, a); }
    p :| |s.log| <= p < |s'.log| && s'.log[p].address == a;
  }

  /** A thread's earlier calls have taken effect, and it has made no later one. */
  lemma EarlierTookEffect(s: State, t: nat, id: nat)
    requires Records(s) && t < |s.threads| && s.threads[t].Pending()
    requires id < |s.history| && s.history[id].Invoked? && s.history[id].thread == t
    ensures id <= s.threads[t].id
    ensures id < s.threads[t].id ==> id in s.place
  {
    hide Marked, Answered, Placed;
    assert Making(s.history, s.place, t, s.threads[t]);
    assert id in s.place || IsMaking(s.threads, t, id);
  }

  lemma PlaceIsKept(s: State, s': State, id: nat)
    requires Records(s) && Records(s') && s.log <= s'.log && id in s.place
    ensures id in s'.place && s'.place[id] == s.place[id] < |s.log|
  {
    hide Marked, Answered, Busy, Accounted;
    assert s'.log[s.place[id]] == s.log[s.place[id]];
  }

  lemma EntryOf(s: State, p: nat)
    requires Records(s) && p < |s.log|
    ensures var id := s.log[p].id;
      id in s.place && s.place[id] == p && id < |s.history| && s.history[id].Invoked?
  {
    hide Marked, Answered, Busy, Accounted;
  }

  lemma UnderWayIsNotPlaced(s: State, t: nat)
    requires Records(s) && t < |s.threads| && s.threads[t].Pending()
    ensures s.threads[t].id !in s.place && s.threads[t].id < |s.history|
  {
    hide Marked, Answered, Placed, Accounted;
    assert Making(s.history, s.place, t, s.threads[t]);
  }

  /** While a thread is in one call, what takes effect is other threads' calls. */
  lemma OthersTakeEffect(s: State, s': State, t: nat, p: nat)
    requires Records(s) && Records(s') && s.log <= s'.log && s.history <= s'.history
    requires t < |s.threads| && s.threads[t].Pending()
    requires t < |s'.threads| && s'.threads[t].Pending() && s'.threads[t].id == s.threads[t].id
    requires |s.log| <= p < |s'.log|
    ensures var id := s'.log[p].id;
      id < |s'.history| && s'.history[id].Invoked? && s'.history[id].thread != t
  {
    hide Records;
    EntryOf(s', p);
    UnderWayIsNotPlaced(s, t);
    UnderWayIsNotPlaced(s', t);
    var id := s'.log[p].id;
    if s'.history[id].thread == t {
      EarlierTookEffect(s', t, id);
      EarlierTookEffect(s, t, id);
      PlaceIsKept(s, s', id);
    }
  }
}
