/** `Custom64.decode`: words back to bytes. */
module Decoder {
  import opened Bits
  import opened Table
  import opened Encoder
  import opened Segmenter

  /** b64.py:34-37: the bits an index stands for. The pad index
      stands for `width` zero bits; any other index for its binary numeral
      left-padded with zeros to at least `width` bits. */
  function IndexBits(idx: nat, width: nat): BitString {
    if idx == PadIndex then Zeros(width) else Binary(idx, width)
  }

  /** The pad index gives `width` zero bits; any other index keeps its value
      and gives exactly `width` bits when it fits in them and more otherwise
      (7 bits for 64 at width 6). */
  lemma IndexBitsMeaning(idx: nat, width: nat)
    ensures idx == PadIndex ==> IndexBits(idx, width) == Zeros(width)
    ensures idx != PadIndex ==> ValueOf(IndexBits(idx, width)) == idx
    ensures idx != PadIndex && 1 <= width && idx < Pow2(width) ==> |IndexBits(idx, width)| == width
    ensures idx != PadIndex && idx >= Pow2(width) ==> |IndexBits(idx, width)| > width
  {
  }

  /** `''.join(...)` of the bits of every index. */
  function IndicesToBits(idxs: seq<nat>, width: nat): BitString {
    Concat(seq(|idxs|, k requires 0 <= k < |idxs| => IndexBits(idxs[k], width)))
  }

  /** b64.py:39-43, as a function: every group that is not all
      zeros contributes its unsigned value; all-zero groups are dropped, so
      no byte of the result is 0x00 when no group is empty. */
  function GroupsToBytes(groups: seq<BitString>): (data: seq<Byte>)
    requires forall k :: 0 <= k < |groups| ==> |groups[k]| <= 8
    ensures |data| <= |groups|
    ensures (forall k :: 0 <= k < |groups| ==> |groups[k]| > 0) ==> 0 !in data
  {
    if |groups| == 0 then []
    else
      var last := groups[|groups| - 1];
      var front := GroupsToBytes(groups[..|groups| - 1]);
      if IsZero(last) then front
      else
        Pow2Monotone(|last|, 8);
        ValueZero(last);
        front + [ValueOf(last)]
  }

  /** b64.py:39-43: append the value of every group that is not
      all zeros. */
  method DecodeBytes(groups: seq<BitString>) returns (data: seq<Byte>)
    requires forall k :: 0 <= k < |groups| ==> |groups[k]| <= 8
    ensures data == GroupsToBytes(groups)
  {
    data := [];
    for i := 0 to |groups|
      invariant data == GroupsToBytes(groups[..i])
    {
      assert groups[..i + 1][..i] == groups[..i];
      if IsZero(groups[i]) {
        continue;
      }
      Pow2Monotone(|groups[i]|, 8);
      data := data + [ValueOf(groups[i])];
    }
    assert groups[..|groups|] == groups;
  }

  /** Some segment has no entry in the inverse table. */
  predicate HasUnknown(c: Codec, segs: seq<string>) {
    exists k :: 0 <= k < |segs| && segs[k] !in c.decodeMap
  }

  /** What `decode` returns before the final UTF-8 step. */
  function DecodeSpec(c: Codec, s: string, width: nat): Result<seq<Byte>>
  {
    match SegmentFrom(c.decodeMap.Keys, s, 0)
    case Err(e) => Err(e)
    case Ok(segs) =>
      if HasUnknown(c, segs) then Err(UnknownSymbol)
      else
        var idxs := seq(|segs|, k requires 0 <= k < |segs| => c.decodeMap[segs[k]]);
        Ok(IndicesToBytes(idxs, width))
  }

  /** b64.py:34-43: the bytes a sequence of indices stands for. */
  function IndicesToBytes(idxs: seq<nat>, width: nat): seq<Byte> {
    GroupsToBytes(Split(IndicesToBits(idxs, width), 8))
  }

  /** `Custom64.decode` up to the UTF-8 step: segment, map every segment to
      its index, expand the indices to bits, cut the bits into bytes and drop
      the all-zero ones. */
  method Decode(c: Codec, s: string, width: nat) returns (r: Result<seq<Byte>>)
    requires "" !in c.decodeMap
    ensures r == DecodeSpec(c, s, width)
  {
    var segmented := Segment(c, s);
    if segmented.Err? {
      return Err(segmented.error);
    }
    var segs := segmented.value;
    if exists k :: 0 <= k < |segs| && segs[k] !in c.decodeMap {
      return Err(UnknownSymbol);
    }
    var idxs := seq(|segs|, k requires 0 <= k < |segs| => c.decodeMap[segs[k]]);
    var bits := IndicesToBits(idxs, width);
    var groups := Split(bits, 8);
    var data := DecodeBytes(groups);
    r := Ok(data);
  }

  /** The "undefined symbol" check after segmentation never fires: decoding
      fails only by segmentation, at a position where no non-empty word
      starts. */
  lemma DecodeErrors(c: Codec, s: string, width: nat)
    ensures DecodeSpec(c, s, width) != Err(UnknownSymbol)
    ensures DecodeSpec(c, s, width).Err? <==> SegmentFrom(c.decodeMap.Keys, s, 0).Err?
    ensures DecodeSpec(c, s, width).Err? ==>
              DecodeSpec(c, s, width).error.Segmentation? &&
              var p := DecodeSpec(c, s, width).error.position;
              p < |s| && forall w :: w in c.decodeMap && w != "" ==> !StartsWithAt(s, w, p)
  {
    var seg := SegmentFrom(c.decodeMap.Keys, s, 0);
    if seg.Ok? {
      SegmentCovers(c.decodeMap.Keys, s, 0);
    } else {
      SegmentFails(c.decodeMap.Keys, s, 0);
    }
  }
}
