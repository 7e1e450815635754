/** atomic.c: atomics on objects too wide for one instruction, as threads taking turns a step at a time.
  *
  * A step is one access to shared memory: one exchange on a lock, one byte copied or compared under it, or one
  * `cmpxchg16b`. Any thread may take the next one. Memory is sequentially consistent, and what a call hands in or
  * gets back through a pointer is private to its thread, so that it is a part of the call and of its outcome.
  */
module Atomics {
  import opened Powers
  import opened ByteStrings
  import Bits

  type Address = nat

  const LOCKS: nat := 64

  // 2^128.
  const RANGE: nat := 0x1_0000_0000_0000_0000_0000_0000_0000_0000

  datatype Rmw = SET | ADD | SUB | AND | OR | XOR | NAND

  /** The calls. The sized store and exchange are `Fetch(SET, _)`; the sized comparison reads before it compares. */
  datatype Call =
    | Load
    | Store(value: seq<Byte>)
    | Exchange(value: seq<Byte>)
    | CompareExchange(expected: seq<Byte>, desired: seq<Byte>, sized: bool)
    | Fetch(rmw: Rmw, operand: nat)

  datatype Outcome = Done | Got(bytes: seq<Byte>) | Matched | Differed(bytes: seq<Byte>)

  lemma SixteenBytes()
    ensures Pow2(8 * 16) == RANGE
  {
    Pow2Words();
    Pow2Add(64, 64);
  }

  /** `applied`. */
  function Applied(rmw: Rmw, was: nat, value: nat): int {
    match rmw
    case SET => value
    case ADD => (was + value) % RANGE
    case SUB => (was - value) % RANGE
    case AND => Bits.And(was, value)
    case OR => Bits.Or(was, value)
    case XOR => Bits.Xor(was, value)
    case NAND => RANGE - 1 - Bits.And(was, value)
  }

  lemma AppliedBelow(rmw: Rmw, was: nat, value: nat)
    requires was < RANGE && value < RANGE
    ensures 0 <= Applied(rmw, was, value) < RANGE
  {
    SixteenBytes();
    hide Pow2;
    Bits.BitwiseBelow(was, value, 128);
  }

  /** The operations against each other: taking away undoes adding, the bits of `and` and `or` add up to the operands
    * and those of `xor` are the difference, which undoes itself, and `nand` is the complement of `and`.
    */
  lemma RmwLaws(was: nat, value: nat)
    requires was < RANGE && value < RANGE
    ensures 0 <= Applied(ADD, was, value) && Applied(SUB, Applied(ADD, was, value), value) == was
    ensures Applied(AND, was, value) + Applied(OR, was, value) == was + value
    ensures Applied(XOR, was, value) == Applied(OR, was, value) - Applied(AND, was, value)
    ensures 0 <= Applied(XOR, was, value) && Applied(XOR, Applied(XOR, was, value), value) == was
    ensures Applied(NAND, was, value) + Applied(AND, was, value) == RANGE - 1
    ensures Applied(SET, was, value) == value
  {
    TakenAway(was, value, RANGE);
    Bits.BitsAddUp(was, value);
    Bits.XorUndone(was, value);
  }

  /** The bitwise ones, at each of the hundred and twenty eight places. */
  lemma RmwBits(was: nat, value: nat, k: nat)
    requires was < RANGE && value < RANGE && k < 128
    ensures 0 <= Applied(NAND, was, value)
    ensures Bits.IsSet(Applied(AND, was, value), k) <==> Bits.IsSet(was, k) && Bits.IsSet(value, k)
    ensures Bits.IsSet(Applied(OR, was, value), k) <==> Bits.IsSet(was, k) || Bits.IsSet(value, k)
    ensures Bits.IsSet(Applied(XOR, was, value), k) <==> Bits.IsSet(was, k) != Bits.IsSet(value, k)
    ensures Bits.IsSet(Applied(NAND, was, value), k) <==> !(Bits.IsSet(was, k) && Bits.IsSet(value, k))
  {
    hide Bits.IsSet, Pow2, Bits.And, Bits.Or, Bits.Xor;
    SixteenBytes();
    Bits.BitsOf(was, value, k);
    Bits.BitwiseBelow(was, value, 128);
    Bits.BitsComplement(Bits.And(was, value), 128, k);
  }

  lemma TakenAway(was: nat, value: nat, range: nat)
    requires was < range && value < range
    ensures 0 <= (was + value) % range && ((was + value) % range - value) % range == was
  {
    if was + value < range {
      ModSmall(was + value, range);
      ModSmall(was, range);
    } else {
      DivModUnique(was + value, range, 1, was + value - range);
      DivModUnique(was - range, range, -1, was);
    }
  }

  /** What a call does to a register, all at once: the value it leaves, and what it answers. */
  datatype Effect = Effect(bytes: seq<Byte>, outcome: Outcome)

  function Apply(call: Call, was: seq<Byte>): Effect {
    match call
    case Load => Effect(was, Got(was))
    case Store(value) => Effect(value, Done)
    case Exchange(value) => Effect(value, Got(was))
    case CompareExchange(expected, desired, _) =>
      if was == expected then Effect(desired, Matched) else Effect(was, Differed(was))
    case Fetch(rmw, operand) => Effect(Put(rmw, Decode(was), operand), Got(was))
  }

  // The bytes a read-modify-write stores.
  function Put(rmw: Rmw, was: nat, operand: nat): (bytes: seq<Byte>)
    ensures |bytes| == 16
  {
    var x := Applied(rmw, was, operand);
    Encode(if x < 0 then 0 else x, 16)
  }

  /** Nothing of the number is lost in the bytes, so a routine that answers the value afterwards, which is the
    * operation once more on the value before, answers what is in the object.
    */
  lemma AfterwardsIsStored(rmw: Rmw, seen: seq<Byte>, operand: nat)
    requires |seen| == 16 && operand < RANGE
    ensures Decode(Apply(Fetch(rmw, operand), seen).bytes) == Applied(rmw, Decode(seen), operand)
  {
    DecodeBelow(seen);
    SixteenBytes();
    hide Pow2, Encode, Decode;
    AppliedBelow(rmw, Decode(seen), operand);
    DecodeEncodes(Applied(rmw, Decode(seen), operand), 16);
  }

  /** The arguments a call may have on an object of so many bytes. */
  predicate Fits(call: Call, size: nat) {
    match call
    case Load => true
    case Store(value) => |value| == size
    case Exchange(value) => |value| == size
    case CompareExchange(expected, desired, sized) =>
      |expected| == size && |desired| == size && (sized ==> size == 16)
    case Fetch(_, operand) => size == 16 && operand < RANGE
  }

  /** What does not change while threads run: the processor, and the objects with what they held at first. */
  datatype Machine = Machine(cx16: bool, initial: map<Address, seq<Byte>>)

  /** Whether every call about an object is the instruction, which its address and its size decide. */
  predicate Paired(m: Machine, address: Address) {
    address in m.initial && |m.initial[address]| == 16 && address % 16 == 0 && m.cx16
  }

  /** `guard_for`, at a pointer of sixty four bits. Different objects may share a lock. */
  function GuardFor(address: Address): (guard: nat)
    ensures guard < LOCKS
  {
    address * 0x9E37_79B9_7F4A_7C15 % 0x1_0000_0000_0000_0000 / 0x400_0000_0000_0000
  }

  /** Where a thread is. From `Reading` to `Dropping` it holds the lock of its object. */
  datatype Phase =
    | Idle
    | Called(id: nat, address: Address, call: Call)
    | Reading(id: nat, address: Address, call: Call, got: seq<Byte>)
    | Comparing(id: nat, address: Address, call: Call, at: nat)
    | Writing(id: nat, address: Address, call: Call, next: seq<Byte>, at: nat, outcome: Outcome)
    | Dropping(id: nat, address: Address, call: Call, outcome: Outcome)
    | Guessing(id: nat, address: Address, call: Call, guess: nat)
    | Returning(id: nat, outcome: Outcome)
  {
    predicate Holds() { Reading? || Comparing? || Writing? || Dropping? }

    // Whether the object may hold something else than the register does.
    predicate Touched() { Writing? || Dropping? }

    // Whether a call is under way that has not taken effect yet.
    predicate Pending() { Called? || Guessing? || Holds() }
  }

  /** What an observer sees. The index of an `Invoked` in the history names the call. */
  datatype Event = Invoked(thread: nat, address: Address, call: Call) | Returned(id: nat, answer: Outcome)

  /** A call taking effect. */
  datatype Entry = Entry(id: nat, address: Address, call: Call, outcome: Outcome)

  /** Shared memory and the threads, and four records that no step reads: what was seen from outside, the calls in
    * the order they took effect, how many had when each event happened, and where in that order each call is.
    */
  datatype State = State(held: seq<bool>, memory: map<Address, seq<Byte>>, threads: seq<Phase>,
                         history: seq<Event>, marks: seq<nat>, log: seq<Entry>, place: map<nat, nat>)

  predicate Initial(m: Machine, s: State) {
    && s.held == seq(LOCKS, i => false)
    && s.memory == m.initial
    && (forall t :: 0 <= t < |s.threads| ==> s.threads[t] == Idle)
    && s.history == [] && s.marks == [] && s.log == [] && s.place == map[]
  }

  /** The steps: a thread calls, goes on, or answers. */
  datatype Step = Invoke(thread: nat, address: Address, call: Call) | Advance(thread: nat) | Return(thread: nat)

  predicate Enabled(m: Machine, s: State, step: Step) {
    && step.thread < |s.threads|
    && var phase := s.threads[step.thread];
       match step
       case Invoke(_, address, call) => phase.Idle? && address in m.initial && Fits(call, |m.initial[address]|)
       case Advance(_) => phase.Pending()
       case Return(_) => phase.Returning?
  }

  function Move(s: State, t: nat, phase: Phase): State
    requires t < |s.threads|
  {
    s.(threads := s.threads[t := phase])
  }

  /** The call of thread `t` takes effect. */
  function Finish(s: State, t: nat, bytes: seq<Byte>, outcome: Outcome): State
    requires t < |s.threads| && s.threads[t].Pending()
  {
    var phase := s.threads[t];
    s.(memory := s.memory[phase.address := bytes],
       threads := s.threads[t := Returning(phase.id, outcome)],
       log := s.log + [Entry(phase.id, phase.address, phase.call, outcome)],
       place := s.place[phase.id := |s.log|])
  }

  /** `exchanged`: what is in memory after the instruction. */
  function Exchanged(bytes: seq<Byte>, expected: nat, desired: nat): seq<Byte> {
    if Decode(bytes) == expected then Encode(desired, 16) else bytes
  }

  // What the loop of `fetched` is asked for by the calls that reach it.
  function Operation(call: Call): (Rmw, nat) {
    match call
    case Store(value) => (SET, Decode(value))
    case Exchange(value) => (SET, Decode(value))
    case Fetch(rmw, operand) => (rmw, operand)
    case _ => (SET, 0)
  }

  /** The first step of a call by the instruction: a load and a comparison are one, and the rest are a loop. */
  function BeginPaired(s: State, t: nat): State
    requires t < |s.threads| && s.threads[t].Called? && s.threads[t].address in s.memory
  {
    var phase := s.threads[t];
    var seen := s.memory[phase.address];
    match phase.call
    case Load => Finish(s, t, Exchanged(seen, 0, 0), Got(seen))
    case CompareExchange(expected, desired, _) =>
      Finish(s, t, Exchanged(seen, Decode(expected), Decode(desired)),
             if Decode(seen) == Decode(expected) then Matched else Differed(seen))
    case _ => Move(s, t, Guessing(phase.id, phase.address, phase.call, 0))
  }

  /** One turn of the loop in `fetched`, whose first guess is zero and whose next is what was really there. */
  function Guess(s: State, t: nat): State
    requires t < |s.threads| && s.threads[t].Guessing? && s.threads[t].address in s.memory
  {
    var phase := s.threads[t];
    var seen := s.memory[phase.address];
    var (rmw, operand) := Operation(phase.call);
    var after := Exchanged(seen, phase.guess, Decode(Put(rmw, phase.guess, operand)));
    if Decode(seen) == phase.guess then Finish(s, t, after, if phase.call.Store? then Done else Got(seen))
    else Move(s, t, Guessing(phase.id, phase.address, phase.call, Decode(seen)))
  }

  /** What comes first under the lock. */
  function UnderLock(phase: Phase): Phase
    requires phase.Called?
  {
    match phase.call
    case Store(value) => Writing(phase.id, phase.address, phase.call, value, 0, Done)
    case CompareExchange(_, _, sized) =>
      if sized then Reading(phase.id, phase.address, phase.call, [])
      else Comparing(phase.id, phase.address, phase.call, 0)
    case _ => Reading(phase.id, phase.address, phase.call, [])
  }

  /** One turn of `take`, which leaves a held lock held. */
  function Take(s: State, t: nat): State
    requires t < |s.threads| && s.threads[t].Called? && |s.held| == LOCKS
  {
    var guard := GuardFor(s.threads[t].address);
    var taken := s.(held := s.held[guard := true]);
    if s.held[guard] then taken else Move(taken, t, UnderLock(s.threads[t]))
  }

  /** What comes after the object has been read. */
  function AfterReading(phase: Phase): Phase
    requires phase.Reading?
  {
    match phase.call
    case Exchange(value) => Writing(phase.id, phase.address, phase.call, value, 0, Got(phase.got))
    case CompareExchange(expected, desired, sized) =>
      if sized && phase.got == expected then Writing(phase.id, phase.address, phase.call, desired, 0, Matched)
      else Dropping(phase.id, phase.address, phase.call, Differed(phase.got))
    case Fetch(rmw, operand) =>
      Writing(phase.id, phase.address, phase.call, Put(rmw, Decode(phase.got), operand), 0, Got(phase.got))
    case _ => Dropping(phase.id, phase.address, phase.call, Got(phase.got))
  }

  /** A byte of `copy` out of the object. */
  function Read(phase: Phase, bytes: seq<Byte>): Phase
    requires phase.Reading?
  {
    var at := |phase.got|;
    if at < |bytes| then Reading(phase.id, phase.address, phase.call, phase.got + [bytes[at]]) else AfterReading(phase)
  }

  /** A byte of `same`, which gives up at the first that differs. */
  function Compare(phase: Phase, bytes: seq<Byte>): Phase
    requires phase.Comparing? && phase.call.CompareExchange? && |phase.call.expected| == |bytes|
  {
    if phase.at >= |bytes| then Writing(phase.id, phase.address, phase.call, phase.call.desired, 0, Matched)
    else if bytes[phase.at] == phase.call.expected[phase.at] then
      Comparing(phase.id, phase.address, phase.call, phase.at + 1)
    else Reading(phase.id, phase.address, phase.call, [])
  }

  /** A byte of `copy` into the object. */
  function Write(s: State, t: nat): State
    requires t < |s.threads| && s.threads[t].Writing? && s.threads[t].address in s.memory
    requires |s.threads[t].next| == |s.memory[s.threads[t].address]|
  {
    var phase := s.threads[t];
    var bytes := s.memory[phase.address];
    if phase.at < |bytes| then
      Move(s, t, Writing(phase.id, phase.address, phase.call, phase.next, phase.at + 1, phase.outcome))
            .(memory := s.memory[phase.address := bytes[phase.at := phase.next[phase.at]]])
    else Move(s, t, Dropping(phase.id, phase.address, phase.call, phase.outcome))
  }

  /** `drop`, which is where a call under the lock takes effect. */
  function Drop(s: State, t: nat): State
    requires t < |s.threads| && s.threads[t].Dropping? && s.threads[t].address in s.memory && |s.held| == LOCKS
  {
    var phase := s.threads[t];
    Finish(s, t, s.memory[phase.address], phase.outcome).(held := s.held[GuardFor(phase.address) := false])
  }

  /** What the steps read is there. Every reachable state is one of these, as `Linearization` shows. */
  predicate Sound(m: Machine, s: State) {
    && |s.held| == LOCKS
    && s.memory.Keys == m.initial.Keys
    && forall t :: 0 <= t < |s.threads| && s.threads[t].Pending() ==>
         var phase := s.threads[t];
         && phase.address in s.memory
         && (phase.Comparing? ==> phase.call.CompareExchange?
                                  && |phase.call.expected| == |s.memory[phase.address]|)
         && (phase.Writing? ==> |phase.next| == |s.memory[phase.address]|)
  }

  function Go(m: Machine, s: State, t: nat): State
    requires Sound(m, s) && t < |s.threads| && s.threads[t].Pending()
  {
    match s.threads[t]
    case Called(_, address, _) => if Paired(m, address) then BeginPaired(s, t) else Take(s, t)
    case Guessing(_, _, _, _) => Guess(s, t)
    case Reading(_, address, _, _) => Move(s, t, Read(s.threads[t], s.memory[address]))
    case Comparing(_, address, _, _) => Move(s, t, Compare(s.threads[t], s.memory[address]))
    case Writing(_, _, _, _, _, _) => Write(s, t)
    case _ => Drop(s, t)
  }

  function After(m: Machine, s: State, step: Step): State
    requires Sound(m, s) && Enabled(m, s, step)
  {
    match step
    case Invoke(t, address, call) =>
      Move(s, t, Called(|s.history|, address, call)).(history := s.history + [Invoked(t, address, call)],
                                                      marks := s.marks + [|s.log|])
    case Advance(t) => Go(m, s, t)
    case Return(t) =>
      Move(s, t, Idle).(history := s.history + [Returned(s.threads[t].id, s.threads[t].outcome)],
                        marks := s.marks + [|s.log|])
  }

  /** Some thread takes some step. */
  ghost predicate Next(m: Machine, s: State, s': State) {
    exists step: Step :: Sound(m, s) && Enabled(m, s, step) && s' == After(m, s, step)
  }

  /** A run: any interleaving whatever. */
  ghost predicate Run(m: Machine, states: seq<State>) {
    && |states| > 0
    && Initial(m, states[0])
    && forall k :: 0 < k < |states| ==> Next(m, states[k - 1], states[k])
  }
}
