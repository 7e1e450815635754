/** mem.c: the block routines on one flat memory, whose indices are the addresses.
  *
  * A word is `step` bytes, four or eight, and reaching one where it is not aligned is what some targets fault on,
  * so `LoadWord` and `StoreWord` demand it of every access.
  */
module Blocks {
  import opened Powers
  import opened Bits
  import opened ByteStrings

  predicate IsStep(step: nat) { step == 4 || step == 8 }

  /** `SAME_SKEW`. */
  predicate SameSkew(step: nat, one: nat, two: nat)
    requires step > 0
  {
    And(Xor(one, two), step - 1) == 0
  }

  lemma {:induction false} XorRemainders(one: nat, two: nat, k: nat)
    ensures Xor(one, two) % Pow2(k) == 0 <==> one % Pow2(k) == two % Pow2(k)
  {
    if k > 0 && (one > 0 || two > 0) {
      var half := Pow2(k - 1);
      XorRemainders(one / 2, two / 2, k - 1);
      HalvesOfRemainder(one, half);
      HalvesOfRemainder(two, half);
      HalvesOfRemainder(Xor(one, two), half);
      assert Xor(one, two) / 2 == Xor(one / 2, two / 2);
    } else if k > 0 {
      assert Xor(one, two) == 0;
    }
  }

  lemma HalvesOfRemainder(n: nat, half: nat)
    requires half > 0
    ensures n % (2 * half) == n / 2 % half * 2 + n % 2
  {
    DivDiv(n, 2, half);
  }

  lemma SameSkewIsAligned(step: nat, one: nat, two: nat)
    requires IsStep(step)
    ensures SameSkew(step, one, two) <==> one % step == two % step
  {
    var k := if step == 4 then 2 else 3;
    assert Pow2(2) == 4 && Pow2(3) == 8;
    AndMask(Xor(one, two), k);
    XorRemainders(one, two, k);
  }

  /** `TO_BOUNDARY` and `PAST_BOUNDARY`. */
  function ToBoundary(step: nat, at: nat): nat
    requires IsStep(step)
  {
    LowBits(step, at);
    And(step - And(at, step - 1), step - 1)
  }

  function PastBoundary(step: nat, at: nat): nat
    requires IsStep(step)
  {
    And(at, step - 1)
  }

  lemma LowBits(step: nat, at: nat)
    requires IsStep(step)
    ensures And(at, step - 1) == at % step < step
  {
    assert Pow2(2) == 4 && Pow2(3) == 8;
    AndMask(at, if step == 4 then 2 else 3);
  }

  predicate Aligned(step: nat, at: nat)
    requires step > 0
  {
    at % step == 0
  }

  lemma Boundaries(step: nat, at: nat)
    requires IsStep(step)
    ensures ToBoundary(step, at) < step && Aligned(step, at + ToBoundary(step, at))
    ensures PastBoundary(step, at) < step && PastBoundary(step, at) <= at && Aligned(step, at - PastBoundary(step, at))
  {
    hide And;
    var q, r := at / step, at % step;
    LowBits(step, at);
    LowBits(step, step - r);
    DivBounds(at, step);
    DivModFacts(at, step);
    DivModUnique(q * step, step, q, 0);
    if r == 0 { DivModUnique(step, step, 1, 0); } else { ModSmall(step - r, step); }
    RoundedUp(step, q, r);
  }

  lemma RoundedUp(step: nat, q: nat, r: nat)
    requires step > 0
    ensures (q * step + r + (step - r)) % step == 0
  {
    Distribute(q, 1, step);
    DivModUnique((q + 1) * step, step, q + 1, 0);
  }

  /** Addresses with the same skew reach a boundary together. */
  lemma SkewMoves(step: nat, one: nat, two: nat, lead: int)
    requires step > 0 && one % step == two % step
    requires 0 <= one + lead && 0 <= two + lead && Aligned(step, one + lead)
    ensures Aligned(step, two + lead)
  {
    var p, q, m := one / step, two / step, (one + lead) / step;
    DivModFacts(one, step);
    DivModFacts(two, step);
    DivModFacts(one + lead, step);
    Distribute(q, p, step);
    Distribute(q - p, m, step);
    DivModUnique(two + lead, step, q - p + m, 0);
  }

  lemma BoundariesTogether(step: nat, one: nat, two: nat)
    requires IsStep(step) && SameSkew(step, one, two)
    ensures ToBoundary(step, one) < step && PastBoundary(step, one) < step
    ensures Aligned(step, one + ToBoundary(step, one)) && Aligned(step, two + ToBoundary(step, one))
    ensures PastBoundary(step, one) <= one && Aligned(step, one - PastBoundary(step, one))
    ensures PastBoundary(step, one) <= two && Aligned(step, two - PastBoundary(step, one))
  {
    hide And, Xor, SameSkew, ToBoundary;
    SameSkewIsAligned(step, one, two);
    Boundaries(step, one);
    Boundaries(step, two);
    LowBits(step, one);
    LowBits(step, two);
    SkewMoves(step, one, two, ToBoundary(step, one));
  }

  lemma NextBoundary(step: nat, at: nat)
    requires step > 0 && Aligned(step, at)
    ensures Aligned(step, at + step) && (at >= step ==> Aligned(step, at - step))
  {
    var q := at / step;
    DivModFacts(at, step);
    Distribute(q, 1, step);
    DivModUnique(at + step, step, q + 1, 0);
    if at >= step { DivModUnique(at - step, step, q - 1, 0); }
  }

  method LoadWord(mem: array<Byte>, at: nat, step: nat, big: bool) returns (word: nat)
    requires step > 0 && Aligned(step, at) && at + step <= mem.Length
    ensures word == WordOf(mem[..][at..at + step], big)
  {
    word := WordOf(mem[..][at..at + step], big);
  }

  method StoreWord(mem: array<Byte>, at: nat, step: nat, word: nat, big: bool)
    requires step > 0 && Aligned(step, at) && at + step <= mem.Length
    modifies mem
    ensures mem[at..at + step] == BytesOf(word, step, big)
    ensures forall k :: 0 <= k < mem.Length && !(at <= k < at + step) ==> mem[k] == old(mem[k])
  {
    var bytes := BytesOf(word, step, big);
    for i := 0 to step
      invariant forall k :: 0 <= k < i ==> mem[at + k] == bytes[k]
      invariant forall k :: 0 <= k < mem.Length && !(at <= k < at + i) ==> mem[k] == old(mem[k])
    {
      mem[at + i] := bytes[i];
    }
  }

  /** One word moved: all of it is read before any of it is written. */
  method MoveWord(mem: array<Byte>, to: nat, from: nat, step: nat, big: bool)
    requires step > 0 && Aligned(step, to) && Aligned(step, from)
    requires to + step <= mem.Length && from + step <= mem.Length
    modifies mem
    ensures forall k {:trigger mem[k]} :: 0 <= k < mem.Length ==>
      mem[k] == if to <= k < to + step then old(mem[k - to + from]) else old(mem[k])
  {
    ghost var bytes := mem[..][from..from + step];
    var word := LoadWord(mem, from, step, big);
    LoadThenStore(bytes, big);
    StoreWord(mem, to, step, word, big);
    assert forall k :: to <= k < to + step ==> mem[k] == mem[to..to + step][k - to];
  }

  /** The first `done` bytes have been moved, and nothing else has changed. */
  ghost predicate Upward(now: seq<Byte>, before: seq<Byte>, to: nat, from: nat, done: nat) {
    && |now| == |before| && to + done <= |now| && from + done <= |now|
    && forall k {:trigger now[k]} :: 0 <= k < |now| ==>
          now[k] == if to <= k < to + done then before[k - to + from] else before[k]
  }

  /** All but the first `left` of `count` bytes have been. */
  ghost predicate Downward(now: seq<Byte>, before: seq<Byte>, to: nat, from: nat, left: nat, count: nat) {
    && |now| == |before| && left <= count && to + count <= |now| && from + count <= |now|
    && forall k {:trigger now[k]} :: 0 <= k < |now| ==>
          now[k] == if to + left <= k < to + count then before[k - to + from] else before[k]
  }

  /** Memory after a move: the bytes of one range put over another's. */
  function Moved(mem: seq<Byte>, to: nat, from: nat, count: nat): seq<Byte>
    requires to + count <= |mem| && from + count <= |mem|
  {
    mem[..to] + mem[from..from + count] + mem[to + count..]
  }

  /** Where the bytes that are still to be read are not among those that have been written. */
  predicate UpwardSafe(to: nat, from: nat, size: nat) { to < from || from + size <= to }

  /** A move of the next `n` bytes up, whose bytes are all read before the first is written. */
  lemma UpwardStep(now: seq<Byte>, after: seq<Byte>, before: seq<Byte>, to: nat, from: nat, done: nat, n: nat,
            size: nat)
    requires Upward(now, before, to, from, done) && UpwardSafe(to, from, size) && done + n <= size
    requires to + done + n <= |now| && from + done + n <= |now| && |after| == |now|
    requires forall k {:trigger after[k]} :: 0 <= k < |now| ==>
      after[k] == if to + done <= k < to + done + n then now[k - to + from] else now[k]
    ensures Upward(after, before, to, from, done + n)
  {
    forall k | to + done <= k < to + done + n
      ensures after[k] == before[k - to + from]
    {
      assert now[k - to + from] == before[k - to + from];
    }
  }

  lemma DownwardStep(now: seq<Byte>, after: seq<Byte>, before: seq<Byte>, to: nat, from: nat, left: nat, n: nat,
            size: nat)
    requires Downward(now, before, to, from, left, size) && from <= to && n <= left && |after| == |now|
    requires forall k {:trigger after[k]} :: 0 <= k < |now| ==>
      after[k] == if to + left - n <= k < to + left then now[k - to + from] else now[k]
    ensures Downward(after, before, to, from, left - n, size)
  {
    forall k | to + left - n <= k < to + left
      ensures after[k] == before[k - to + from]
    {
      assert now[k - to + from] == before[k - to + from];
    }
  }

  lemma AllMoved(now: seq<Byte>, before: seq<Byte>, to: nat, from: nat, size: nat)
    requires Upward(now, before, to, from, size) || Downward(now, before, to, from, 0, size)
    ensures to + size <= |before| && from + size <= |before| && now == Moved(before, to, from, size)
  {
    forall k | 0 <= k < |now|
      ensures now[k] == Moved(before, to, from, size)[k]
    {
      if to <= k < to + size { assert before[from..from + size][k - to] == before[k - to + from]; }
    }
  }

  /** A byte moved up, and a word. */
  method ByteUp(mem: array<Byte>, out: nat, input: nat,
                ghost before: seq<Byte>, ghost to: nat, ghost from: nat, ghost done: nat, ghost size: nat)
    requires out == to + done && input == from + done && done < size
    requires to + size <= mem.Length && from + size <= mem.Length
    requires UpwardSafe(to, from, size) && Upward(mem[..], before, to, from, done)
    modifies mem
    ensures Upward(mem[..], before, to, from, done + 1)
  {
    ghost var now := mem[..];
    mem[out] := mem[input];
    UpwardStep(now, mem[..], before, to, from, done, 1, size);
  }

  method WordUp(mem: array<Byte>, out: nat, input: nat, step: nat, big: bool,
                ghost before: seq<Byte>, ghost to: nat, ghost from: nat, ghost done: nat, ghost size: nat)
    requires out == to + done && input == from + done && done + step <= size
    requires to + size <= mem.Length && from + size <= mem.Length
    requires step > 0 && Aligned(step, out) && Aligned(step, input)
    requires UpwardSafe(to, from, size) && Upward(mem[..], before, to, from, done)
    modifies mem
    ensures Upward(mem[..], before, to, from, done + step)
  {
    ghost var now := mem[..];
    MoveWord(mem, out, input, step, big);
    UpwardStep(now, mem[..], before, to, from, done, step, size);
  }

  method ByteDown(mem: array<Byte>, out: nat, input: nat,
                  ghost before: seq<Byte>, ghost to: nat, ghost from: nat, ghost left: nat, ghost size: nat)
    requires out == to + left && input == from + left && left < size && from <= to
    requires Downward(mem[..], before, to, from, left + 1, size)
    modifies mem
    ensures Downward(mem[..], before, to, from, left, size)
  {
    ghost var now := mem[..];
    mem[out] := mem[input];
    DownwardStep(now, mem[..], before, to, from, left + 1, 1, size);
  }

  method WordDown(mem: array<Byte>, out: nat, input: nat, step: nat, big: bool,
                  ghost before: seq<Byte>, ghost to: nat, ghost from: nat, ghost left: nat, ghost size: nat)
    requires out == to + left && input == from + left && left + step <= size && from <= to
    requires step > 0 && Aligned(step, out) && Aligned(step, input)
    requires Downward(mem[..], before, to, from, left + step, size)
    modifies mem
    ensures Downward(mem[..], before, to, from, left, size)
  {
    ghost var now := mem[..];
    MoveWord(mem, out, input, step, big);
    DownwardStep(now, mem[..], before, to, from, left + step, step, size);
  }

  /** The loops of `memcpy`, which are the forward loops of `memmove` too. What is left to count never goes below
    * zero, the bytes up to the boundary being fewer than a word and two words being there.
    */
  method CopyUp(mem: array<Byte>, to: nat, from: nat, size: nat, step: nat, big: bool)
    requires IsStep(step) && to + size <= mem.Length && from + size <= mem.Length && UpwardSafe(to, from, size)
    modifies mem
    ensures mem[..] == Moved(old(mem[..]), to, from, size)
  {
    hide Upward, SameSkew, ToBoundary, PastBoundary, Aligned, Moved, IsStep;
    ghost var before := mem[..];
    StepRange(step);
    assert Upward(mem[..], before, to, from, 0) by { NothingMoved(before, to, from); }
    var out, input, count: nat := to, from, size;
    ghost var done: nat := 0;
    if count >= step * 2 && SameSkew(step, out, input) {
      BoundariesTogether(step, out, input);
      var lead: nat := ToBoundary(step, out);
      count := count - lead;
      while lead != 0
        invariant out == to + done && input == from + done && done + lead + count == size
        invariant Aligned(step, out + lead) && Aligned(step, input + lead)
        invariant Upward(mem[..], before, to, from, done)
        decreases lead
      {
        ByteUp(mem, out, input, before, to, from, done, size);
        out, input, lead, done := out + 1, input + 1, lead - 1, done + 1;
      }
      while count >= step
        invariant out == to + done && input == from + done && done + count == size
        invariant Aligned(step, out) && Aligned(step, input)
        invariant Upward(mem[..], before, to, from, done)
      {
        WordUp(mem, out, input, step, big, before, to, from, done, size);
        NextBoundary(step, out);
        NextBoundary(step, input);
        out, input, count, done := out + step, input + step, count - step, done + step;
      }
    }
    while count != 0
      invariant out == to + done && input == from + done && done + count == size
      invariant Upward(mem[..], before, to, from, done)
      decreases count
    {
      ByteUp(mem, out, input, before, to, from, done, size);
      out, input, count, done := out + 1, input + 1, count - 1, done + 1;
    }
    AllMoved(mem[..], before, to, from, size);
  }

  lemma StepRange(step: nat)
    requires IsStep(step)
    ensures 4 <= step <= 8
  {
  }

  lemma NothingMoved(before: seq<Byte>, to: nat, from: nat)
    requires to <= |before| && from <= |before|
    ensures Upward(before, before, to, from, 0)
  {
  }

  /** `memcpy`, section 7.24.2.1 of C17, which leaves ranges that overlap undefined. */
  method Memcpy(mem: array<Byte>, to: nat, from: nat, size: nat, step: nat, big: bool) returns (result: nat)
    requires IsStep(step) && to + size <= mem.Length && from + size <= mem.Length
    requires to + size <= from || from + size <= to
    modifies mem
    ensures mem[..] == Moved(old(mem[..]), to, from, size) && result == to
  {
    CopyUp(mem, to, from, size, step, big);
    result := to;
  }

  /** The backward loops of `memmove`, which shed bytes from the top down to a boundary first. */
  method CopyDown(mem: array<Byte>, to: nat, from: nat, size: nat, step: nat, big: bool)
    requires IsStep(step) && to + size <= mem.Length && from + size <= mem.Length && from <= to
    modifies mem
    ensures mem[..] == Moved(old(mem[..]), to, from, size)
  {
    hide Downward, SameSkew, ToBoundary, PastBoundary, Aligned, Moved, IsStep;
    ghost var before := mem[..];
    StepRange(step);
    assert Downward(mem[..], before, to, from, size, size) by { NothingMovedDown(before, to, from, size); }
    var out, input, count: nat := to + size, from + size, size;
    ghost var left: nat := size;
    if count >= step * 2 && SameSkew(step, out, input) {
      BoundariesTogether(step, out, input);
      var lead: nat := PastBoundary(step, out);
      count := count - lead;
      while lead != 0
        invariant out == to + left && input == from + left && left == count + lead
        invariant Aligned(step, out - lead) && Aligned(step, input - lead)
        invariant Downward(mem[..], before, to, from, left, size)
        decreases lead
      {
        out, input, left := out - 1, input - 1, left - 1;
        ByteDown(mem, out, input, before, to, from, left, size);
        lead := lead - 1;
      }
      while count >= step
        invariant out == to + left && input == from + left && left == count
        invariant Aligned(step, out) && Aligned(step, input)
        invariant Downward(mem[..], before, to, from, left, size)
      {
        NextBoundary(step, out);
        NextBoundary(step, input);
        out, input, left := out - step, input - step, left - step;
        WordDown(mem, out, input, step, big, before, to, from, left, size);
        count := count - step;
      }
    }
    while count != 0
      invariant out == to + left && input == from + left && left == count
      invariant Downward(mem[..], before, to, from, left, size)
      decreases count
    {
      out, input, left := out - 1, input - 1, left - 1;
      ByteDown(mem, out, input, before, to, from, left, size);
      count := count - 1;
    }
    AllMoved(mem[..], before, to, from, size);
  }

  lemma NothingMovedDown(before: seq<Byte>, to: nat, from: nat, size: nat)
    requires to + size <= |before| && from + size <= |before|
    ensures Downward(before, before, to, from, size, size)
  {
  }

  /** `memmove`, section 7.24.2.2 of C17: whatever the overlap, the alignment and the length, the destination has
    * what the source had before the call, and every other byte is as it was.
    */
  method Memmove(mem: array<Byte>, to: nat, from: nat, size: nat, step: nat, big: bool) returns (result: nat)
    requires IsStep(step) && to + size <= mem.Length && from + size <= mem.Length
    modifies mem
    ensures mem[..] == Moved(old(mem[..]), to, from, size) && result == to
  {
    if to < from {
      CopyUp(mem, to, from, size, step, big);
      return to;
    }
    CopyDown(mem, to, from, size, step, big);
    result := to;
  }

  /** A move leaves the source's bytes at the destination and nothing else changed. */
  lemma MovedAt(mem: seq<Byte>, to: nat, from: nat, count: nat, k: nat)
    requires to + count <= |mem| && from + count <= |mem| && k < |mem|
    ensures |Moved(mem, to, from, count)| == |mem|
    ensures Moved(mem, to, from, count)[k] == if to <= k < to + count then mem[k - to + from] else mem[k]
  {
    if to <= k < to + count { assert mem[from..from + count][k - to] == mem[k - to + from]; }
  }

  /** A byte `n` times over, as a number. */
  function Spread(byte: Byte, n: nat): nat { if n == 0 then 0 else byte + 0x100 * Spread(byte, n - 1) }

  lemma {:induction false} SpreadBelow(byte: Byte, n: nat)
    ensures Spread(byte, n) < Pow2(8 * n)
  {
    if n > 0 {
      SpreadBelow(byte, n - 1);
      Pow2Add(8, 8 * (n - 1));
      assert Pow2(8) == 0x100;
    }
  }

  lemma {:induction false} SpreadTwice(byte: Byte, m: nat, n: nat)
    ensures Spread(byte, m + n) == Spread(byte, m) + Spread(byte, n) * Pow2(8 * m)
  {
    if m == 0 {
      assert Pow2(0) == 1;
    } else {
      SpreadTwice(byte, m - 1, n);
      Pow2Add(8, 8 * (m - 1));
      assert Pow2(8) == 0x100;
      assert m + n - 1 == m - 1 + n;
      SpreadTerms(byte, Spread(byte, m - 1), Spread(byte, n), Pow2(8 * (m - 1)));
    }
  }

  lemma SpreadTerms(byte: nat, high: nat, low: nat, p: nat)
    ensures byte + 0x100 * (high + low * p) == byte + 0x100 * high + low * (0x100 * p)
  {
    MulAssoc(low, 0x100, p);
    MulAssoc(0x100, low, p);
  }

  /** One turn of the doubling. */
  lemma SpreadDoubles(byte: Byte, n: nat)
    ensures Or(Spread(byte, n), Shl(Spread(byte, n), 8 * n)) == Spread(byte, 2 * n) < Pow2(8 * (2 * n))
    ensures Spread(byte, n) < Pow2(8 * n)
  {
    var fill := Spread(byte, n);
    SpreadBelow(byte, n);
    SpreadBelow(byte, 2 * n);
    SpreadTwice(byte, n, n);
    DivModUnique(Shl(fill, 8 * n), Pow2(8 * n), fill, 0);
    OrSum(Shl(fill, 8 * n), fill, 8 * n);
  }

  /** The doubling makes every byte of the word the byte it started from, in either order. */
  lemma {:induction false} SpreadBytes(byte: Byte, n: nat, big: bool)
    ensures forall k :: 0 <= k < n ==> BytesOf(Spread(byte, n), n, big)[k] == byte
  {
    EncodedSpread(byte, n);
  }

  lemma {:induction false} EncodedSpread(byte: Byte, n: nat)
    ensures Encode(Spread(byte, n), n) == seq(n, i => byte)
  {
    if n > 0 {
      EncodedSpread(byte, n - 1);
      EncodedStep(byte, Spread(byte, n - 1), n - 1);
      assert [byte] + seq(n - 1, i => byte) == seq(n, i => byte);
    }
  }

  lemma EncodedStep(byte: Byte, rest: nat, n: nat)
    ensures Encode(byte + 0x100 * rest, n + 1) == [byte] + Encode(rest, n)
  {
    DivModUnique(byte + 0x100 * rest, 0x100, rest, byte);
    EncodeFirst(byte + 0x100 * rest, n);
    hide Encode;
  }

  lemma EncodeFirst(x: nat, n: nat)
    ensures 0 <= x / 0x100 && 0 <= x % 0x100 && Encode(x, n + 1) == [x % 0x100] + Encode(x / 0x100, n)
  {
  }

  /** The byte spread over a word by doubling, with the shifts cut to the width of the word. */
  method SpreadOver(byte: Byte, step: nat) returns (fill: nat)
    requires IsStep(step)
    ensures fill == Spread(byte, step)
  {
    fill := byte;
    var spread := 8;
    ghost var n := 1;
    assert Spread(byte, 1) == byte + 0x100 * Spread(byte, 0);
    while spread < step * 8
      invariant spread == 8 * n && (n == 1 || n == 2 || n == 4 || n == 8) && n <= step
      invariant fill == Spread(byte, n)
      decreases step * 8 - spread
    {
      SpreadDoubles(byte, n);
      ShiftFits(fill, n, step);
      fill := Or(fill, Shl(fill, spread) % Pow2(8 * step));
      spread := spread * 2;
      n := n * 2;
    }
  }

  lemma ShiftFits(fill: nat, n: nat, step: nat)
    requires fill < Pow2(8 * n) && 2 * n <= step
    ensures Shl(fill, 8 * n) % Pow2(8 * step) == Shl(fill, 8 * n)
  {
    Pow2Add(8 * n, 8 * n);
    Pow2Mono(8 * (2 * n), 8 * step);
    MulStrict(fill, Pow2(8 * n), Pow2(8 * n));
    ModSmall(Shl(fill, 8 * n), Pow2(8 * step));
  }

  /** The first `done` bytes from `at` have been filled, and nothing else has changed. */
  ghost predicate Filled(now: seq<Byte>, before: seq<Byte>, at: nat, byte: Byte, done: nat) {
    && |now| == |before| && at + done <= |now|
    && forall k :: 0 <= k < |now| ==> now[k] == if at <= k < at + done then byte else before[k]
  }

  /** `memset`: the low byte of the value, `size` times over, and nothing else changed. */
  method Memset(mem: array<Byte>, at: nat, value: int, size: nat, step: nat, big: bool) returns (result: nat)
    requires IsStep(step) && at + size <= mem.Length
    modifies mem
    ensures |mem[..]| == |old(mem[..])| && result == at
    ensures forall k :: 0 <= k < mem.Length ==>
      mem[k] == if at <= k < at + size then value % 0x100 else old(mem[k])
  {
    hide SameSkew, ToBoundary, Aligned;
    ghost var before := mem[..];
    var out, count: nat := at, size;
    var byte: Byte := value % 0x100;
    if count >= step * 2 {
      Boundaries(step, out);
      var lead: nat := ToBoundary(step, out);
      var fill := SpreadOver(byte, step);
      SpreadBytes(byte, step, big);
      count := count - lead;
      while lead != 0
        invariant out - at == size - count - lead >= 0
        invariant Aligned(step, out + lead)
        invariant Filled(mem[..], before, at, byte, out - at)
        decreases lead
      {
        mem[out] := byte;
        out, lead := out + 1, lead - 1;
      }
      while count >= step
        invariant out - at == size - count >= 0
        invariant Aligned(step, out)
        invariant Filled(mem[..], before, at, byte, out - at)
      {
        FillWord(mem, out, step, fill, big, before, at, byte);
        NextBoundary(step, out);
        out, count := out + step, count - step;
      }
    }
    while count != 0
      invariant out - at == size - count >= 0
      invariant Filled(mem[..], before, at, byte, out - at)
      decreases count
    {
      mem[out] := byte;
      out, count := out + 1, count - 1;
    }
    result := at;
  }

  method FillWord(mem: array<Byte>, out: nat, step: nat, fill: nat, big: bool, ghost before: seq<Byte>,
            ghost at: nat, ghost byte: Byte)
    requires step > 0 && Aligned(step, out) && at <= out && out + step <= mem.Length
    requires forall k :: 0 <= k < step ==> BytesOf(fill, step, big)[k] == byte
    requires Filled(mem[..], before, at, byte, out - at)
    modifies mem
    ensures Filled(mem[..], before, at, byte, out + step - at)
  {
    StoreWord(mem, out, step, fill, big);
    forall k | out <= k < out + step ensures mem[k] == byte {
      assert mem[k] == mem[out..out + step][k - out];
    }
  }

  /** The difference of the first bytes that differ, and zero where none do. */
  function FirstDifference(one: seq<Byte>, two: seq<Byte>): int
    requires |one| == |two|
  {
    if one == [] then 0
    else if one[0] != two[0] then one[0] as int - two[0] as int
    else FirstDifference(one[1..], two[1..])
  }

  // Where two ranges begin to differ.
  predicate FirstDiffer(one: seq<Byte>, two: seq<Byte>, k: nat)
    requires |one| == |two|
  {
    k < |one| && one[..k] == two[..k] && one[k] != two[k]
  }

  /** Zero exactly for equal ranges, and otherwise the order of the unsigned bytes where they begin to differ. */
  ghost predicate IsOrder(answer: int, one: seq<Byte>, two: seq<Byte>)
    requires |one| == |two|
  {
    && (answer == 0 <==> one == two)
    && forall k: nat :: FirstDiffer(one, two, k) ==>
         && answer == one[k] as int - two[k] as int
         && (answer < 0 <==> one[k] < two[k])
         && (answer > 0 <==> one[k] > two[k])
  }

  /** The answer is the order of the ranges, which begin to differ in one place where they are not equal. */
  lemma {:induction false} DifferenceOrders(one: seq<Byte>, two: seq<Byte>)
    requires |one| == |two|
    ensures IsOrder(FirstDifference(one, two), one, two)
    ensures one != two ==> exists k: nat :: FirstDiffer(one, two, k)
  {
    if one != [] && one[0] == two[0] {
      DifferenceOrders(one[1..], two[1..]);
      assert one == [one[0]] + one[1..] && two == [two[0]] + two[1..];
      forall k: nat ensures FirstDiffer(one, two, k) <==> k > 0 && FirstDiffer(one[1..], two[1..], k - 1) {
        if 0 < k < |one| { DifferLater(one, two, k); }
      }
      if one != two {
        var k: nat :| FirstDiffer(one[1..], two[1..], k);
        assert FirstDiffer(one, two, k + 1);
      }
    } else if one != [] {
      assert FirstDiffer(one, two, 0);
      forall k: nat ensures FirstDiffer(one, two, k) ==> k == 0 { DifferAtOnce(one, two, k); }
    }
  }

  lemma DifferAtOnce(one: seq<Byte>, two: seq<Byte>, k: nat)
    requires |one| == |two| > 0 && one[0] != two[0]
    ensures FirstDiffer(one, two, k) ==> k == 0
  {
    if 0 < k < |one| {
      PrefixFirst(one, k);
      PrefixFirst(two, k);
    }
  }

  lemma PrefixFirst(s: seq<Byte>, k: nat)
    requires 0 < k <= |s|
    ensures s[..k][0] == s[0]
  {
  }

  lemma DifferLater(one: seq<Byte>, two: seq<Byte>, k: nat)
    requires 0 < k < |one| == |two| && one[0] == two[0]
    ensures FirstDiffer(one, two, k) <==> FirstDiffer(one[1..], two[1..], k - 1)
  {
    assert one[..k] == [one[0]] + one[1..][..k - 1] && two[..k] == [two[0]] + two[1..][..k - 1];
    assert one[..k][1..] == one[1..][..k - 1] && two[..k][1..] == two[1..][..k - 1];
  }

  /** The difference of two ranges of memory. */
  ghost function DifferenceAt(mem: seq<Byte>, one: nat, two: nat, size: nat): int
    requires one + size <= |mem| && two + size <= |mem|
  {
    FirstDifference(mem[one..one + size], mem[two..two + size])
  }

  /** What `DifferenceOrders` says, of the bytes where they are. */
  lemma DifferenceInMemory(mem: seq<Byte>, one: nat, two: nat, size: nat)
    requires one + size <= |mem| && two + size <= |mem|
    ensures IsOrder(DifferenceAt(mem, one, two, size), mem[one..one + size], mem[two..two + size])
  {
    DifferenceOrders(mem[one..one + size], mem[two..two + size]);
  }

  /** What the ranges start with decides, where it differs, and what is left decides where it does not. */
  lemma DifferenceSplits(mem: seq<Byte>, one: nat, two: nat, n: nat, left: nat)
    requires one + n + left <= |mem| && two + n + left <= |mem|
    ensures DifferenceAt(mem, one, two, n + left)
            == if DifferenceAt(mem, one, two, n) != 0 then DifferenceAt(mem, one, two, n)
               else DifferenceAt(mem, one + n, two + n, left)
  {
    var first, second := mem[one..one + (n + left)], mem[two..two + (n + left)];
    assert first[..n] == mem[one..one + n] && second[..n] == mem[two..two + n];
    assert first[n..] == mem[one + n..one + n + left] && second[n..] == mem[two + n..two + n + left];
    PrefixDecides(first, second, n);
  }

  lemma {:induction false} PrefixDecides(one: seq<Byte>, two: seq<Byte>, n: nat)
    requires |one| == |two| && n <= |one|
    ensures FirstDifference(one, two) == if FirstDifference(one[..n], two[..n]) != 0
                                         then FirstDifference(one[..n], two[..n])
                                         else FirstDifference(one[n..], two[n..])
  {
    if n == 0 {
      assert one[0..] == one && two[0..] == two;
    } else {
      assert one[0] == one[..n][0] && two[0] == two[..n][0];
      assert one[1..][..n - 1] == one[..n][1..] && two[1..][..n - 1] == two[..n][1..];
      assert one[1..][n - 1..] == one[n..] && two[1..][n - 1..] == two[n..];
      PrefixDecides(one[1..], two[1..], n - 1);
    }
  }

  lemma OneByte(mem: seq<Byte>, one: nat, two: nat)
    requires one < |mem| && two < |mem|
    ensures DifferenceAt(mem, one, two, 0) == 0
    ensures DifferenceAt(mem, one, two, 1) == mem[one] as int - mem[two] as int
  {
    NoBytes(mem, one, two);
    var first, second := mem[one..one + 1], mem[two..two + 1];
    assert first == [mem[one]] && second == [mem[two]];
    assert first[1..] == [] && second[1..] == [] && FirstDifference(first[1..], second[1..]) == 0;
  }

  /** The byte loop, which `memcmp` has before its word loop and after it. */
  method CompareBytes(mem: array<Byte>, one: nat, two: nat, size: nat) returns (result: int)
    requires one + size <= mem.Length && two + size <= mem.Length
    ensures result == DifferenceAt(mem[..], one, two, size)
  {
    hide FirstDifference, DifferenceAt;
    var done: nat := 0;
    while done != size
      invariant done <= size
      invariant DifferenceAt(mem[..], one, two, size) == DifferenceAt(mem[..], one + done, two + done, size - done)
      decreases size - done
    {
      OneByte(mem[..], one + done, two + done);
      DifferenceSplits(mem[..], one + done, two + done, 1, size - done - 1);
      if mem[one + done] != mem[two + done] {
        return mem[one + done] as int - mem[two + done] as int;
      }
      done := done + 1;
    }
    NoBytes(mem[..], one + done, two + done);
    result := 0;
  }

  lemma NoBytes(mem: seq<Byte>, one: nat, two: nat)
    requires one <= |mem| && two <= |mem|
    ensures DifferenceAt(mem, one, two, 0) == 0
  {
  }

  lemma WordsDiffer(mem: seq<Byte>, left: nat, right: nat, step: nat, big: bool)
    requires left + step <= |mem| && right + step <= |mem|
    ensures WordOf(mem[left..left + step], big) == WordOf(mem[right..right + step], big)
            <==> DifferenceAt(mem, left, right, step) == 0
  {
    WordsEqual(mem[left..left + step], mem[right..right + step], big);
    DifferenceOrders(mem[left..left + step], mem[right..right + step]);
  }

  /** Two words loaded and compared. */
  method SameWord(mem: array<Byte>, left: nat, right: nat, step: nat, big: bool) returns (equal: bool)
    requires step > 0 && Aligned(step, left) && Aligned(step, right)
    requires left + step <= mem.Length && right + step <= mem.Length
    ensures equal <==> DifferenceAt(mem[..], left, right, step) == 0
  {
    hide FirstDifference, WordOf, DifferenceAt, Aligned;
    WordsDiffer(mem[..], left, right, step, big);
    var one := LoadWord(mem, left, step, big);
    var two := LoadWord(mem, right, step, big);
    equal := one == two;
  }

  /** `memcmp`. The word loop asks only whether words are equal, so the machine's byte order is not in the answer:
    * a word that differs is left for the byte loop to walk into.
    */
  method Memcmp(mem: array<Byte>, one: nat, two: nat, size: nat, step: nat, big: bool) returns (result: int)
    requires IsStep(step) && one + size <= mem.Length && two + size <= mem.Length
    ensures result == DifferenceAt(mem[..], one, two, size)
    ensures IsOrder(result, mem[one..one + size], mem[two..two + size])
  {
    hide SameSkew, ToBoundary, PastBoundary, Aligned, FirstDifference, DifferenceAt, IsOrder;
    ghost var all := mem[..];
    DifferenceInMemory(all, one, two, size);
    var left, right, count: nat := one, two, size;
    if count >= step * 2 && SameSkew(step, left, right) {
      BoundariesTogether(step, left, right);
      var lead: nat := ToBoundary(step, left);
      count := count - lead;
      DifferenceSplits(all, left, right, lead, count);
      result := CompareBytes(mem, left, right, lead);
      if result != 0 { return; }
      left, right := left + lead, right + lead;
      var more := true;
      while count >= step && more
        invariant mem[..] == all && left + count == one + size && right + count == two + size
        invariant Aligned(step, left) && Aligned(step, right)
        invariant DifferenceAt(all, one, two, size) == DifferenceAt(all, left, right, count)
        decreases count, more
      {
        more := SameWord(mem, left, right, step, big);
        if more {
          DifferenceSplits(all, left, right, step, count - step);
          NextBoundary(step, left);
          NextBoundary(step, right);
          left, right, count := left + step, right + step, count - step;
        }
      }
    }
    result := CompareBytes(mem, left, right, count);
  }
}
