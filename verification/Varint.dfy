/** varint.py: the unsigned LEB128 codec (section 7.6 of DWARF Version 5) and the
    packed counts blob. The recursive functions state the code by division by 128;
    the methods are the program's shift-and-mask loops. */
module Varint {
  import opened Common
  import opened Bits

  type Byte = b: int | 0 <= b < 256

  datatype CodecError = Negative | Truncated

  function Encode(n: nat): (bytes: seq<Byte>)
    ensures |bytes| > 0
  {
    if n < 128 then [n] else [n % 128 + 128] + Encode(n / 128)
  }

  /** The value encoded at `pos` and the offset just past it; None when truncated. */
  function Decode(data: seq<Byte>, pos: nat): (r: Option<(nat, nat)>)
    ensures r.Some? ==> pos < r.value.1 <= |data|
    decreases |data| - pos
  {
    if pos >= |data| then None
    else if data[pos] < 128 then Some((data[pos], pos + 1))
    else match Decode(data, pos + 1)
      case None => None
      case Some((v, p)) => Some((data[pos] - 128 + 128 * v, p))
  }

  method EncodeVarint(n: int) returns (r: Result<seq<Byte>, CodecError>)
    ensures n < 0 ==> r == Err(Negative)
    ensures n >= 0 ==> r == Ok(Encode(n))
  {
    if n < 0 {
      return Err(Negative);
    }
    var out: seq<Byte> := [];
    var m: nat := n;
    while true
      invariant out + Encode(m) == Encode(n)
      decreases m
    {
      EncodeStep(m);
      var byte := BitAnd(m, 0x7F);
      m := Shr(m, 7);
      if m != 0 {
        assert out + ([BitOr(byte, 0x80)] + Encode(m)) == out + [BitOr(byte, 0x80)] + Encode(m);
        out := out + [BitOr(byte, 0x80)];
      } else {
        return Ok(out + [byte]);
      }
    }
  }

  lemma EncodeStep(m: nat)
    ensures BitAnd(m, 0x7F) < 128 && BitOr(BitAnd(m, 0x7F), 0x80) < 256
    ensures Shr(m, 7) == 0 ==> Encode(m) == [BitAnd(m, 0x7F)]
    ensures Shr(m, 7) != 0 ==>
        Shr(m, 7) < m && Encode(m) == [BitOr(BitAnd(m, 0x7F), 0x80)] + Encode(Shr(m, 7))
  {
    AndSevenBits(m);
    ShrSeven(m);
    ContinuationBit(m % 128);
  }

  /** What the decoder returns when it has read `result` in `shift` bits and `rest` follows. */
  ghost function Continued(result: nat, shift: nat, rest: Option<(nat, nat)>): Option<(nat, nat)> {
    match rest case None => None case Some((v, end)) => Some((result + v * Pow2(shift), end))
  }

  method DecodeVarint(data: seq<Byte>, start: nat) returns (r: Result<(nat, nat), CodecError>)
    ensures Decode(data, start).None? ==> r == Err(Truncated)
    ensures Decode(data, start).Some? ==> r == Ok(Decode(data, start).value)
  {
    var result: nat, shift: nat, pos := 0, 0, start;
    while true
      invariant start <= pos && result < Pow2(shift)
      invariant Decode(data, start) == Continued(result, shift, Decode(data, pos))
      decreases |data| - pos
    {
      if pos >= |data| {
        return Err(Truncated);
      }
      var byte := data[pos];
      ByteAccumulated(data, pos, result, shift);
      ContinuationBit(byte);
      pos := pos + 1;
      result := BitOr(result, Shl(BitAnd(byte, 0x7F), shift));
      if BitAnd(byte, 0x80) == 0 {
        return Ok((result, pos));
      }
      shift := shift + 7;
    }
  }

  /** One turn of the loop adds the byte's seven bits and leaves the rest to come. */
  lemma ByteAccumulated(data: seq<Byte>, pos: nat, result: nat, shift: nat)
    requires pos < |data| && result < Pow2(shift)
    ensures var result' := BitOr(result, Shl(BitAnd(data[pos], 0x7F), shift));
      && result' < Pow2(shift + 7)
      && Continued(result, shift, Decode(data, pos)) ==
        if data[pos] < 128 then Some((result', pos + 1)) else Continued(result', shift + 7, Decode(data, pos + 1))
  {
    AccumulateSevenBits(result, data[pos], shift);
    if data[pos] >= 128 && Decode(data, pos + 1).Some? {
      AccumulateValue(result, data[pos], Decode(data, pos + 1).value.0, shift);
    }
  }

  lemma AccumulateSevenBits(result: nat, byte: nat, shift: nat)
    requires result < Pow2(shift) && byte < 256
    ensures BitOr(result, Shl(BitAnd(byte, 0x7F), shift)) == result + (byte % 128) * Pow2(shift)
    ensures result + (byte % 128) * Pow2(shift) < Pow2(shift + 7)
  {
    AndSevenBits(byte);
    ShlIsTimes(byte % 128, shift);
    OrDisjoint(result, byte % 128, shift);
    Pow2Add(shift, 7);
    Pow2Seven();
    SevenBitsBelow(result, byte % 128, Pow2(shift));
  }

  lemma SevenBitsBelow(result: nat, low: nat, p: nat)
    requires result < p && low < 128
    ensures result + low * p < p * 128
  {
    assert low * p <= 127 * p;
  }

  lemma AccumulateValue(result: nat, byte: nat, v: nat, shift: nat)
    requires 128 <= byte < 256
    ensures result + (byte - 128 + 128 * v) * Pow2(shift)
         == result + (byte % 128) * Pow2(shift) + v * Pow2(shift + 7)
  {
    Pow2Add(shift, 7);
    Pow2Seven();
    var p := Pow2(shift);
    assert (byte - 128 + 128 * v) * p == (byte - 128) * p + v * (p * 128);
  }

  /** Decoding at the offset of an encoded value, inside any surrounding bytes, gives the
      value and the offset just past it. */
  lemma {:induction false} DecodeEncoded(pre: seq<Byte>, n: nat, post: seq<Byte>)
    ensures Decode(pre + Encode(n) + post, |pre|) == Some((n, |pre| + |Encode(n)|))
    decreases n
  {
    var data := pre + Encode(n) + post;
    assert data[|pre|] == Encode(n)[0];
    if n >= 128 {
      var pre' := pre + [n % 128 + 128];
      DecodeEncoded(pre', n / 128, post);
      assert pre' + Encode(n / 128) + post == data;
    }
  }

  /** Unsigned LEB128 byte by byte: the i-th byte holds the i-th seven bits from the low end, and
      every byte but the last has its high bit set. */
  lemma {:induction false} EncodedBytes(n: nat, i: nat)
    requires i < |Encode(n)|
    ensures Encode(n)[i] % 128 == Shr(n, 7 * i) % 128
    ensures Encode(n)[i] >= 128 <==> i < |Encode(n)| - 1
    decreases i
  {
    if n >= 128 && i > 0 {
      EncodedBytes(n / 128, i - 1);
      ShrSeven(n);
      ShrAdd(n, 7, 7 * (i - 1));
    }
  }

  /** Decoding fails exactly when no byte from the offset on ends a value. */
  lemma {:induction false} TruncatedExact(data: seq<Byte>, pos: nat)
    ensures Decode(data, pos).None? <==> forall i :: pos <= i < |data| ==> data[i] >= 128
    decreases |data| - pos
  {
    if pos < |data| && data[pos] >= 128 {
      TruncatedExact(data, pos + 1);
    }
  }

  /** No encoding is a proper prefix of another one. */
  lemma PrefixFree(a: nat, b: nat)
    requires Encode(a) <= Encode(b)
    ensures a == b
  {
    var tail := Encode(b)[|Encode(a)|..];
    assert [] + Encode(a) + tail == Encode(b) && [] + Encode(b) + [] == Encode(b);
    DecodeEncoded([], a, tail);
    DecodeEncoded([], b, []);
  }

  /** No byte string the decoder accepts for `n` is shorter than `Encode(n)`. */
  lemma {:induction false} EncodingMinimal(data: seq<Byte>, pos: nat, n: nat, end: nat)
    requires Decode(data, pos) == Some((n, end))
    ensures |Encode(n)| <= end - pos
    decreases |data| - pos
  {
    if data[pos] >= 128 {
      var v := Decode(data, pos + 1).value.0;
      EncodingMinimal(data, pos + 1, v, end);
      assert n / 128 == v;
    }
  }

  function EncodeBlob(counts: seq<nat>): seq<Byte> {
    if counts == [] then [] else Encode(counts[0]) + EncodeBlob(counts[1..])
  }

  function DecodeBlob(blob: seq<Byte>, pos: nat): Option<seq<nat>>
    requires pos <= |blob|
    decreases |blob| - pos
  {
    if pos == |blob| then Some([])
    else match Decode(blob, pos)
      case None => None
      case Some((v, p)) =>
        match DecodeBlob(blob, p)
        case None => None
        case Some(rest) => Some([v] + rest)
  }

  /** The join over the encoded counts; the source raises on a negative one. */
  method EncodeCountsBlob(counts: seq<int>) returns (r: Result<seq<Byte>, CodecError>)
    ensures (exists i :: 0 <= i < |counts| && counts[i] < 0) ==> r == Err(Negative)
    ensures (forall i :: 0 <= i < |counts| ==> counts[i] >= 0) ==> r == Ok(EncodeBlob(counts))
  {
    var blob: seq<Byte> := [];
    for i := 0 to |counts|
      invariant forall k :: 0 <= k < i ==> counts[k] >= 0
      invariant blob == EncodeBlob(counts[..i])
    {
      var one := EncodeVarint(counts[i]);
      if one.Err? {
        return one;
      }
      BlobAppend(counts[..i], counts[i]);
      assert counts[..i + 1] == counts[..i] + [counts[i]];
      blob := blob + one.value;
    }
    assert counts[..|counts|] == counts;
    return Ok(blob);
  }

  lemma {:induction false} BlobAppend(counts: seq<nat>, n: nat)
    ensures EncodeBlob(counts + [n]) == EncodeBlob(counts) + Encode(n)
  {
    var all := counts + [n];
    if counts == [] {
      assert all == [n] && all[1..] == [];
      assert EncodeBlob(all) == Encode(n) + EncodeBlob([]);
    } else {
      BlobAppend(counts[1..], n);
      assert all[1..] == counts[1..] + [n] && all[0] == counts[0];
      assert EncodeBlob(all) == Encode(counts[0]) + EncodeBlob(counts[1..] + [n]);
    }
  }

  method DecodeCountsBlob(blob: seq<Byte>) returns (r: Result<seq<nat>, CodecError>)
    ensures DecodeBlob(blob, 0).None? ==> r == Err(Truncated)
    ensures DecodeBlob(blob, 0).Some? ==> r == Ok(DecodeBlob(blob, 0).value)
  {
    var counts: seq<nat>, pos := [], 0;
    while pos < |blob|
      invariant pos <= |blob|
      invariant DecodeBlob(blob, 0).Some? <==> DecodeBlob(blob, pos).Some?
      invariant DecodeBlob(blob, pos).Some? ==>
          DecodeBlob(blob, 0).value == counts + DecodeBlob(blob, pos).value
      decreases |blob| - pos
    {
      var one := DecodeVarint(blob, pos);
      if one.Err? {
        return Err(one.error);
      }
      counts := counts + [one.value.0];
      pos := one.value.1;
    }
    assert counts + [] == counts;
    return Ok(counts);
  }

  lemma {:induction false} DecodeBlobFrom(pre: seq<Byte>, counts: seq<nat>)
    ensures DecodeBlob(pre + EncodeBlob(counts), |pre|) == Some(counts)
    decreases |counts|
  {
    if counts != [] {
      var head, rest := Encode(counts[0]), EncodeBlob(counts[1..]);
      DecodeEncoded(pre, counts[0], rest);
      assert pre + head + rest == pre + (head + rest);
      DecodeBlobFrom(pre + head, counts[1..]);
      assert [counts[0]] + counts[1..] == counts;
    }
  }

  /** Decoding inverts encoding for every list of counts. */
  lemma BlobRoundTrip(counts: seq<nat>)
    ensures DecodeBlob(EncodeBlob(counts), 0) == Some(counts)
  {
    DecodeBlobFrom([], counts);
    assert [] + EncodeBlob(counts) == EncodeBlob(counts);
  }
}
