/** The XOR keystream over discovery XML (`src/bcudp/xmlCrypto.ts`). */
module XmlCrypto {
  import opened ByteStrings

  const XML_KEY: seq<nat> := [
    0x1f2d3c4b, 0x5a6c7f8d, 0x38172e4b, 0x8271635a, 0x863f1a2b, 0xa5c6f7d8, 0x8371e1b4, 0x17f2d3a5]

  /** Byte `i` of the keystream selected by a transaction id: key words are used cyclically, each
      shifted by the id modulo 2^32, four bytes a word, least significant first. */
  function KeyByte(tid: int, i: nat): bv8 {
    Le32((XML_KEY[i / 4 % 8] + ToUint32(tid)) % TWO32)[i % 4]
  }

  /** Four keystream bytes, least significant first, are a key word plus the transaction id modulo 2^32;
      the eight key words are used in turn. */
  lemma KeystreamInNumbers(tid: int, w: nat)
    ensures KeyByte(tid, 4 * w) as nat + 256 * (KeyByte(tid, 4 * w + 1) as nat)
            + 65536 * (KeyByte(tid, 4 * w + 2) as nat) + 16777216 * (KeyByte(tid, 4 * w + 3) as nat)
            == ([0x1f2d3c4b, 0x5a6c7f8d, 0x38172e4b, 0x8271635a, 0x863f1a2b, 0xa5c6f7d8, 0x8371e1b4, 0x17f2d3a5][w % 8]
                + tid % 0x1_0000_0000) % 0x1_0000_0000
  {
    hide Le32, KeyByte;
    var word := (XML_KEY[w % 8] + ToUint32(tid)) % TWO32;
    KeyWord(tid, w, 0);
    KeyWord(tid, w, 1);
    KeyWord(tid, w, 2);
    KeyWord(tid, w, 3);
    Le32InNumbers(word);
  }

  lemma KeyWord(tid: int, w: nat, k: nat)
    requires k < 4
    ensures KeyByte(tid, 4 * w + k) == Le32((XML_KEY[w % 8] + ToUint32(tid)) % TWO32)[k]
  {
    hide Le32;
    assert (4 * w + k) / 4 == w && (4 * w + k) % 4 == k;
  }

  lemma Le32InNumbers(n: nat)
    requires n < TWO32
    ensures Le32(n)[0] as nat + 256 * (Le32(n)[1] as nat) + 65536 * (Le32(n)[2] as nat) + 16777216 * (Le32(n)[3] as nat) == n
  {
    hide Le32, FromLe32;
    FromLe32Of(n);
    assert Le32(n)[0..4] == Le32(n);
    ReadU32InBytes(Le32(n), 0);
  }

  function Masked(tid: int, s: Bytes): (r: Bytes)
    ensures |r| == |s|
  {
    seq(|s|, i requires 0 <= i < |s| => s[i] ^ KeyByte(tid, i))
  }

  lemma XorTwice(a: bv8, k: bv8)
    ensures (a ^ k) ^ k == a
  {
  }

  /** Masking twice with the same id restores the text, so decryption inverts encryption. */
  lemma MaskedTwice(tid: int, s: Bytes)
    ensures Masked(tid, Masked(tid, s)) == s
  {
    forall i | 0 <= i < |s| ensures Masked(tid, Masked(tid, s))[i] == s[i] {
      XorTwice(s[i], KeyByte(tid, i));
    }
  }

  /** The generator: a word counter and the bytes of the current word not yet yielded. */
  class Keystream {
    const offset: nat
    var idx: nat
    var pending: Bytes

    ghost predicate Valid()
      reads this
    {
      && IsUint32(offset)
      && |pending| <= 4
      && (|pending| > 0 ==> idx > 0)
      && (forall k :: 0 <= k < |pending| ==> pending[k] == KeyByte(offset, Position() + k))
    }

    ghost function Position(): int
      reads this
    {
      4 * idx - |pending|
    }

    constructor (tid: int)
      ensures Valid() && Position() == 0 && offset == ToUint32(tid)
    {
      offset := ToUint32(tid);
      idx := 0;
      pending := [];
    }

    method Next() returns (b: bv8)
      requires Valid()
      modifies this
      ensures Valid() && Position() == old(Position()) + 1
      ensures b == KeyByte(offset, old(Position()))
    {
      hide Le32;
      if pending == [] {
        var word := (XML_KEY[idx % 8] + offset) % TWO32;
        pending := Le32(word);
        forall k | 0 <= k < 4 ensures pending[k] == KeyByte(offset, 4 * idx + k) {
          assert (4 * idx + k) / 4 == idx && (4 * idx + k) % 4 == k;
        }
        idx := idx + 1;
      }
      b := pending[0];
      pending := pending[1..];
    }
  }

  lemma SameKeyByte(tid: int, i: nat)
    ensures KeyByte(ToUint32(tid), i) == KeyByte(tid, i)
  {
    hide Le32;
  }

  /** Only the low 32 bits of the id matter. */
  lemma MaskedUint32(tid: int, s: Bytes)
    ensures Masked(ToUint32(tid), s) == Masked(tid, s)
  {
    hide KeyByte;
    forall i | 0 <= i < |s| ensures Masked(ToUint32(tid), s)[i] == Masked(tid, s)[i] {
      SameKeyByte(tid, i);
    }
  }

  method BcUdpXmlEncrypt(tid: int, plain: Bytes) returns (enc: Bytes)
    ensures enc == Masked(tid, plain)
  {
    hide KeyByte;
    var out := new bv8[|plain|];
    var ks := new Keystream(tid);
    for i := 0 to |plain|
      invariant ks.Valid() && ks.Position() == i && ks.offset == ToUint32(tid)
      invariant fresh(ks) && fresh(out)
      invariant forall j :: 0 <= j < i ==> out[j] == plain[j] ^ KeyByte(tid, j)
    {
      var k := ks.Next();
      SameKeyByte(tid, i);
      out[i] := plain[i] ^ k;
    }
    enc := out[..];
  }

  method BcUdpXmlDecrypt(tid: int, enc: Bytes) returns (plain: Bytes)
    ensures plain == Masked(tid, enc)
    ensures forall s :: Masked(tid, s) == enc ==> plain == s
  {
    plain := BcUdpXmlEncrypt(tid, enc);
    forall s | Masked(tid, s) == enc ensures plain == s {
      MaskedTwice(tid, s);
    }
  }
}
