/** Bytes, and the numbers they are in either order. */
module ByteStrings {
  import opened Powers

  type Byte = x: nat | x < 0x100

  /** Little-endian bytes and the number they are. */
  function Decode(bytes: seq<Byte>): nat {
    if bytes == [] then 0 else bytes[0] + 0x100 * Decode(bytes[1..])
  }

  function Encode(x: nat, count: nat): (bytes: seq<Byte>)
    ensures |bytes| == count
  {
    if count == 0 then [] else [x % 0x100] + Encode(x / 0x100, count - 1)
  }

  lemma {:induction false} EncodeDecodes(bytes: seq<Byte>)
    ensures Encode(Decode(bytes), |bytes|) == bytes
  {
    if bytes != [] {
      EncodeDecodes(bytes[1..]);
      assert Decode(bytes) % 0x100 == bytes[0] && Decode(bytes) / 0x100 == Decode(bytes[1..]);
    }
  }

  lemma {:induction false} DecodeEncodes(x: nat, count: nat)
    requires x < Pow2(8 * count)
    ensures Decode(Encode(x, count)) == x
  {
    if count > 0 {
      Pow2Add(8, 8 * (count - 1));
      assert Pow2(8) == 0x100;
      DecodeEncodes(x / 0x100, count - 1);
      assert Encode(x, count)[1..] == Encode(x / 0x100, count - 1);
    }
  }

  /** The first byte is the low one. */
  lemma {:induction false} ByteOfNumber(bytes: seq<Byte>, k: nat)
    requires k < |bytes|
    ensures Decode(bytes) / Pow2(8 * k) % 0x100 == bytes[k]
  {
    if k == 0 {
      assert Pow2(0) == 1;
    } else {
      Pow2Add(8, 8 * (k - 1));
      assert Pow2(8) == 0x100;
      assert Decode(bytes) / 0x100 == Decode(bytes[1..]);
      DivDiv(Decode(bytes), 0x100, Pow2(8 * (k - 1)));
      ByteOfNumber(bytes[1..], k - 1);
    }
  }

  lemma {:induction false} DecodeBelow(bytes: seq<Byte>)
    ensures Decode(bytes) < Pow2(8 * |bytes|)
  {
    if bytes != [] {
      DecodeBelow(bytes[1..]);
      Pow2Add(8, 8 * |bytes[1..]|);
      assert Pow2(8) == 0x100;
    }
  }

  function Reversed(bytes: seq<Byte>): (r: seq<Byte>)
    ensures |r| == |bytes|
    ensures forall k :: 0 <= k < |bytes| ==> r[k] == bytes[|bytes| - 1 - k]
  {
    seq(|bytes|, i requires 0 <= i < |bytes| => bytes[|bytes| - 1 - i])
  }

  /** The word that is loaded from some bytes, and the bytes that are stored for one, in the machine's order. */
  function WordOf(bytes: seq<Byte>, big: bool): nat { Decode(if big then Reversed(bytes) else bytes) }

  function BytesOf(word: nat, count: nat, big: bool): (bytes: seq<Byte>)
    ensures |bytes| == count
  {
    if big then Reversed(Encode(word, count)) else Encode(word, count)
  }

  /** A store puts back what a load of the same order took. */
  lemma LoadThenStore(bytes: seq<Byte>, big: bool)
    ensures BytesOf(WordOf(bytes, big), |bytes|, big) == bytes
  {
    EncodeDecodes(bytes);
    EncodeDecodes(Reversed(bytes));
    assert Reversed(Reversed(bytes)) == bytes;
  }

  /** Words are equal where their bytes are, whatever the order. */
  lemma WordsEqual(one: seq<Byte>, two: seq<Byte>, big: bool)
    requires |one| == |two|
    ensures WordOf(one, big) == WordOf(two, big) <==> one == two
  {
    LoadThenStore(one, big);
    LoadThenStore(two, big);
  }
}
