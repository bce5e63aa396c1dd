/** `decode(encode(text))`: the codec gives back the text's bytes with every
    zero byte removed. */
module RoundTrip {
  import opened Bits
  import opened Table
  import opened Encoder
  import opened Segmenter
  import opened Decoder

  /** A table the round trip holds for at `width` bits per word: the width
      leaves the pad index outside the data range, every non-zero chunk value
      and the pad index have a word that maps back to them, and the words are
      non-empty and prefix-free, so segmentation is unambiguous. */
  predicate RoundTripTable(c: Codec, width: nat) {
    && 1 <= width && Pow2(width) <= PadIndex
    && MapsBack(c, PadIndex)
    && (forall v :: 1 <= v < Pow2(width) ==> MapsBack(c, v))
    && "" !in c.decodeMap
    && PrefixFree(c.decodeMap.Keys)
  }

  /** Index `v` has a word, and that word's index is `v` again. */
  predicate MapsBack(c: Codec, v: nat) {
    v in c.encodeMap && c.encodeMap[v] in c.decodeMap && c.decodeMap[c.encodeMap[v]] == v
  }

  /** The bytes with every 0x00 removed. */
  function RemoveZeros(data: seq<Byte>): (r: seq<Byte>)
    ensures 0 !in r
    ensures 0 !in data ==> r == data
  {
    if |data| == 0 then []
    else
      var front := RemoveZeros(data[..|data| - 1]);
      assert 0 !in data ==> 0 !in data[..|data| - 1];
      assert data == data[..|data| - 1] + [data[|data| - 1]];
      if data[|data| - 1] == 0 then front else front + [data[|data| - 1]]
  }

  /** One 8-bit group per byte. */
  function ByteGroups(data: seq<Byte>): seq<BitString> {
    seq(|data|, k requires 0 <= k < |data| => ByteBits(data[k]))
  }

  lemma {:induction false} ByteGroupsConcat(data: seq<Byte>)
    ensures Concat(ByteGroups(data)) == BytesToBits(data)
  {
    if |data| > 0 {
      var n := |data| - 1;
      ByteGroupsConcat(data[..n]);
      assert ByteGroups(data)[..n] == ByteGroups(data[..n]);
    }
  }

  /** Splitting is determined by its three properties. */
  lemma {:induction false} SplitUnique(s: BitString, n: nat, r: seq<BitString>)
    requires n > 0
    requires Concat(r) == s
    requires forall k :: 0 <= k < |r| ==> 0 < |r[k]| <= n
    requires forall k :: 0 <= k < |r| - 1 ==> |r[k]| == n
    ensures r == Split(s, n)
    decreases |r|
  {
    if |r| > 0 {
      ConcatCons(r[0], r[1..]);
      assert r == [r[0]] + r[1..];
      if |r| == 1 {
        assert r[1..] == [];
        assert Concat(r[1..]) == [];
        assert s == r[0];
      } else {
        assert |Concat(r[1..])| > 0 by {
          ConcatCons(r[1], r[2..]);
          assert r[1..] == [r[1]] + r[2..];
        }
        assert s[..n] == r[0] && s[n..] == Concat(r[1..]);
        SplitUnique(s[n..], n, r[1..]);
      }
    }
  }

  /** Cutting the bytes' bits, followed by fewer than 8 padding zeros, into
      8-bit groups gives back one group per byte and then the padding. */
  lemma SplitBytes(data: seq<Byte>, pad: nat)
    requires pad < 8
    ensures Split(BytesToBits(data) + Zeros(pad), 8) ==
              ByteGroups(data) + (if pad == 0 then [] else [Zeros(pad)])
  {
    var r := ByteGroups(data) + (if pad == 0 then [] else [Zeros(pad)]);
    ByteGroupsConcat(data);
    if pad == 0 {
      assert r == ByteGroups(data);
      assert BytesToBits(data) + Zeros(0) == BytesToBits(data);
    } else {
      ConcatAppend(ByteGroups(data), [Zeros(pad)]);
      ConcatCons(Zeros(pad), []);
    }
    SplitUnique(BytesToBits(data) + Zeros(pad), 8, r);
  }

  /** Decoding the byte groups drops exactly the zero bytes. */
  lemma {:induction false} ByteGroupsDecode(data: seq<Byte>)
    ensures GroupsToBytes(ByteGroups(data)) == RemoveZeros(data)
  {
    if |data| > 0 {
      var n := |data| - 1;
      ByteGroupsDecode(data[..n]);
      assert ByteGroups(data)[..n] == ByteGroups(data[..n]);
      ValueZero(ByteBits(data[n]));
    }
  }

  /** A trailing all-zero group adds nothing. */
  lemma GroupsZeroTail(groups: seq<BitString>, z: BitString)
    requires forall k :: 0 <= k < |groups| ==> |groups[k]| <= 8
    requires |z| <= 8 && IsZero(z)
    ensures GroupsToBytes(groups + [z]) == GroupsToBytes(groups)
  {
    assert (groups + [z])[..|groups|] == groups;
  }

  /** The bits the decoder rebuilds from the chunk indices are the chunks. */
  lemma IndexBitsOfChunks(data: seq<Byte>, width: nat)
    requires 1 <= width && Pow2(width) <= PadIndex
    ensures IndicesToBits(ChunkIndices(data, width), width) ==
              Concat(ChunkAndPad(BytesToBits(data), width))
  {
    var chunks := ChunkAndPad(BytesToBits(data), width);
    var idxs := ChunkIndices(data, width);
    ChunkIndicesMeaning(data, width);
    var pieces := seq(|idxs|, k requires 0 <= k < |idxs| => IndexBits(idxs[k], width));
    forall k | 0 <= k < |idxs|
      ensures pieces[k] == chunks[k]
    {
      if IsZero(chunks[k]) {
        assert chunks[k] == Zeros(width);
      } else {
        BinaryOfValue(chunks[k]);
      }
    }
    assert pieces == chunks;
  }

  /** On a suitable table, the words `encode` emits segment back into the
      same words and map back to the same chunk indices. */
  lemma DecodeOfEncode(c: Codec, data: seq<Byte>, width: nat)
    requires RoundTripTable(c, width)
    ensures EncodeSpec(c, data, width).Ok?
    ensures DecodeSpec(c, EncodeSpec(c, data, width).value, width) ==
              Ok(IndicesToBytes(ChunkIndices(data, width), width))
  {
    var idxs := ChunkIndices(data, width);
    assert CoversWidth(c, width) by {
      forall v | 1 <= v < Pow2(width) ensures v in c.encodeMap {
        assert MapsBack(c, v);
      }
    }
    EncodeWords(c, data, width);
    ChunkIndicesMeaning(data, width);
    var ws := LookupWords(c.encodeMap, idxs).value;
    forall k | 0 <= k < |ws|
      ensures ws[k] in c.decodeMap && c.decodeMap[ws[k]] == idxs[k]
    {
      assert MapsBack(c, idxs[k]);
    }
    SegmentUnique(c.decodeMap.Keys, ws, Concat(ws), 0);
    assert !HasUnknown(c, ws);
    var back := seq(|ws|, k requires 0 <= k < |ws| => c.decodeMap[ws[k]]);
    assert back == idxs;
  }

  /** A width that leaves the pad index outside the data range is at most 6. */
  lemma NarrowWidth(width: nat)
    requires Pow2(width) <= PadIndex
    ensures width < 7
  {
    if width >= 7 {
      Pow2Monotone(7, width);
    }
  }

  /** The bytes the chunk indices stand for are the input bytes without
      their zeros. */
  lemma IndicesToBytesOfChunks(data: seq<Byte>, width: nat)
    requires 1 <= width && Pow2(width) <= PadIndex
    ensures IndicesToBytes(ChunkIndices(data, width), width) == RemoveZeros(data)
  {
    var pad := PadLength(|BytesToBits(data)|, width);
    NarrowWidth(width);
    var bits := IndicesToBits(ChunkIndices(data, width), width);
    assert bits == BytesToBits(data) + Zeros(pad) by {
      IndexBitsOfChunks(data, width);
    }
    var groups := Split(bits, 8);
    SplitBytes(data, pad);
    ByteGroupsDecode(data);
    if pad != 0 {
      assert groups == ByteGroups(data) + [Zeros(pad)];
      GroupsZeroTail(ByteGroups(data), Zeros(pad));
    } else {
      assert groups == ByteGroups(data) + [];
      assert ByteGroups(data) + [] == ByteGroups(data);
    }
  }

  /** Round trip: on a suitable table, encoding succeeds and decoding its
      output gives back the bytes with every zero byte dropped. */
  lemma RoundTrip(c: Codec, data: seq<Byte>, width: nat)
    requires RoundTripTable(c, width)
    ensures EncodeSpec(c, data, width).Ok?
    ensures DecodeSpec(c, EncodeSpec(c, data, width).value, width) == Ok(RemoveZeros(data))
  {
    DecodeOfEncode(c, data, width);
    IndicesToBytesOfChunks(data, width);
  }

  /** Text without U+0000 comes back exactly. */
  lemma RoundTripExact(c: Codec, data: seq<Byte>, width: nat)
    requires RoundTripTable(c, width) && 0 !in data
    ensures EncodeSpec(c, data, width).Ok?
    ensures DecodeSpec(c, EncodeSpec(c, data, width).value, width) == Ok(data)
  {
    RoundTrip(c, data, width);
  }

  /** A 0x00 byte does not survive the round trip. */
  lemma ZeroByteErased(c: Codec, width: nat)
    requires RoundTripTable(c, width)
    ensures EncodeSpec(c, [0], width).Ok?
    ensures DecodeSpec(c, EncodeSpec(c, [0], width).value, width) == Ok([])
  {
    RoundTrip(c, [0], width);
    assert [0][..0] == [];
  }
}
