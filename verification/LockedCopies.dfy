/** What the generic routines of atomic.c do to their buffers under the lock, byte by byte in place. */
module LockedCopies {
  import opened ByteStrings
  import opened Atomics

  /** `copy`. */
  method Copy(out: array<Byte>, input: array<Byte>)
    requires out.Length == input.Length
    modifies out
    ensures out[..] == old(input[..])
  {
    var done := 0;
    while done != out.Length
      invariant 0 <= done <= out.Length
      invariant forall k :: 0 <= k < done ==> out[k] == old(input[k])
      invariant forall k :: done <= k < out.Length ==> out[k] == old(out[k])
      invariant out != input ==> input[..] == old(input[..])
      decreases out.Length - done
    {
      out[done] := input[done];
      done := done + 1;
    }
    assert forall k :: 0 <= k < out.Length ==> out[..][k] == old(input[..])[k];
  }

  /** `same`. */
  method Same(one: array<Byte>, two: array<Byte>) returns (matched: bool)
    requires one.Length == two.Length
    ensures matched <==> one[..] == two[..]
  {
    var done := 0;
    while done != one.Length
      invariant 0 <= done <= one.Length
      invariant forall k :: 0 <= k < done ==> one[k] == two[k]
      decreases one.Length - done
    {
      if one[done] != two[done] {
        assert one[..][done] != two[..][done];
        return false;
      }
      done := done + 1;
    }
    assert forall k :: 0 <= k < one.Length ==> one[..][k] == two[..][k];
    matched := true;
  }

  /** `generic_store` under the lock. */
  method StoreLocked(cell: array<Byte>, value: array<Byte>)
    requires cell.Length == value.Length && cell != value
    modifies cell
    ensures cell[..] == old(value[..]) && value[..] == old(value[..])
    ensures cell[..] == Apply(Store(old(value[..])), old(cell[..])).bytes
  {
    Copy(cell, value);
  }

  /** `generic_exchange` under the lock, which is an exchange exactly where the two buffers are two, or one that
    * holds what the object held. Handed one buffer for both it puts back what it read.
    */
  method ExchangeLocked(cell: array<Byte>, value: array<Byte>, into: array<Byte>)
    requires cell.Length == value.Length == into.Length && cell != value && cell != into
    modifies cell, into
    ensures into[..] == old(cell[..])
    ensures cell[..] == if value == into then old(cell[..]) else old(value[..])
    ensures cell[..] == Apply(Exchange(old(value[..])), old(cell[..])).bytes
            <==> value != into || old(value[..]) == old(cell[..])
  {
    Copy(into, cell);
    Copy(cell, value);
  }

  /** The same call by the instruction, as far as the argument buffers go: the value is read before anything is
    * written back. The object is written here in two copies, which says nothing of the instruction being one step;
    * that is `Atomics.Guess`.
    */
  method ExchangePaired(cell: array<Byte>, value: array<Byte>, into: array<Byte>)
    requires cell.Length == value.Length == into.Length && cell != value && cell != into
    modifies cell, into
    ensures into[..] == old(cell[..]) && cell[..] == old(value[..])
    ensures cell[..] == Apply(Exchange(old(value[..])), old(cell[..])).bytes
  {
    var put, was := new Byte[cell.Length], new Byte[cell.Length];
    Copy(put, value);
    Copy(was, cell);
    Copy(cell, put);
    Copy(into, was);
  }

  /** `generic_compare_exchange` under the lock: matched, the object is changed, and otherwise what was expected is
    * replaced by what was there.
    */
  method CompareExchangeLocked(cell: array<Byte>, expected: array<Byte>, desired: array<Byte>) returns (matched: bool)
    requires cell.Length == expected.Length == desired.Length
    requires cell != expected && cell != desired
    modifies cell, expected
    ensures matched <==> old(cell[..]) == old(expected[..])
    ensures cell[..] == if matched then old(desired[..]) else old(cell[..])
    ensures expected[..] == if matched then old(expected[..]) else old(cell[..])
    ensures var effect := Apply(CompareExchange(old(expected[..]), old(desired[..]), false), old(cell[..]));
      && cell[..] == effect.bytes
      && effect.outcome == (if matched then Matched else Differed(expected[..]))
  {
    matched := Same(cell, expected);
    if matched { Copy(cell, desired); } else { Copy(expected, cell); }
  }
}
