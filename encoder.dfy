/** `Custom64.encode` and `Custom64._chunk_and_pad`: bytes to words. */
module Encoder {
  import opened Bits
  import opened Table

  /** What a call of `encode` or `decode` can fail with. */
  datatype Error =
    | UndefinedSymbol(index: nat)   // encode: the table has no word for a chunk's index
    | Segmentation(position: nat)   // decode: no word starts at this position
    | UnknownSymbol                 // decode: a segment has no index (defensive check)

  datatype Result<T> = Ok(value: T) | Err(error: Error)

  /** How many zero bits `_chunk_and_pad` appends to a string of `n` bits. */
  function PadLength(n: nat, width: nat): (p: nat)
    requires width > 0
    ensures p < width
    ensures (n + p) % width == 0
  {
    var rem := n % width;
    if rem != 0 then
      assert n + (width - rem) == n - rem + width;
      DivStep(n - rem, width);
      DivSmall(0, width);
      DivStep(0, width);
      assert (n - rem) % width == 0 by {
        assert n - rem == width * (n / width);
        MultipleMod(n / width, width);
      }
      width - rem
    else 0
  }

  lemma {:induction false} MultipleMod(q: nat, n: nat)
    requires n > 0
    ensures (n * q) % n == 0
  {
    if q == 0 {
      DivSmall(0, n);
    } else {
      MultipleMod(q - 1, n);
      assert n * q == n * (q - 1) + n;
      DivStep(n * (q - 1), n);
    }
  }

  /** `_chunk_and_pad`: right-pad the bits with zeros to a multiple of the
      width and cut them into chunks of exactly that width. */
  function ChunkAndPad(bits: BitString, width: nat): (chunks: seq<BitString>)
    requires width > 0
    ensures Concat(chunks) == bits + Zeros(PadLength(|bits|, width))
    ensures forall k :: 0 <= k < |chunks| ==> |chunks[k]| == width
  {
    var padded := bits + Zeros(PadLength(|bits|, width));
    SplitExact(padded, width);
    Split(padded, width)
  }

  /** There are `ceil(|bits| / width)` chunks. */
  lemma ChunkCount(bits: BitString, width: nat)
    requires width > 0
    ensures |ChunkAndPad(bits, width)| == (|bits| + width - 1) / width
  {
    var p := PadLength(|bits|, width);
    SplitCount(bits + Zeros(p), width);
    assert |bits + Zeros(p)| == |bits| + p;
    PadCount(|bits|, width);
  }

  /** Padding never changes the number of chunks. */
  lemma PadCount(n: nat, width: nat)
    requires width > 0
    ensures (n + PadLength(n, width) + width - 1) / width == (n + width - 1) / width
  {
    var p := PadLength(n, width);
    if p != 0 {
      var q := n / width;
      var rem := n % width;
      assert n == width * q + rem;
      assert n + p == width * (q + 1);
      assert n + p + width - 1 == width * (q + 1) + (width - 1);
      assert n + width - 1 == width * (q + 1) + (rem - 1);
      DivOf(q + 1, width - 1, width);
      DivOf(q + 1, rem - 1, width);
    }
  }

  lemma DivOf(q: nat, r: nat, n: nat)
    requires r < n
    ensures (n * q + r) / n == q
  {
    var m := n * q + r;
    SmallMultiple(n, m / n - q);
  }

  /** b64.py:24-26: the chunk's value, except that an all-zero
      chunk is sent to the pad index. */
  function ChunkIndex(chunk: BitString): nat {
    var idx := ValueOf(chunk);
    if idx == 0 && IsZero(chunk) then PadIndex else idx
  }

  /** A non-empty chunk never selects index 0: a zero chunk becomes the pad
      index and any other chunk keeps its non-zero value. */
  lemma ChunkIndexCases(chunk: BitString)
    requires |chunk| > 0
    ensures ChunkIndex(chunk) != 0
    ensures ChunkIndex(chunk) == PadIndex <==> IsZero(chunk) || ValueOf(chunk) == PadIndex
    ensures !IsZero(chunk) ==> 1 <= ChunkIndex(chunk) < Pow2(|chunk|)
  {
    ValueZero(chunk);
  }

  /** The index sent for every chunk of the input, in chunk order. */
  function ChunkIndices(data: seq<Byte>, width: nat): (idxs: seq<nat>)
    requires width > 0
  {
    var chunks := ChunkAndPad(BytesToBits(data), width);
    seq(|chunks|, k requires 0 <= k < |chunks| => ChunkIndex(chunks[k]))
  }

  /** `idxs[k]` is the first index of `idxs` that the table lacks. */
  predicate FirstMissing(encodeMap: map<nat, string>, idxs: seq<nat>, k: nat)
    requires k < |idxs|
  {
    idxs[k] !in encodeMap && forall j :: 0 <= j < k ==> idxs[j] in encodeMap
  }

  /** The words of a sequence of indices, or the first index the table lacks
      (`self.encode_map[idx]` raising `KeyError`). */
  function LookupWords(encodeMap: map<nat, string>, idxs: seq<nat>): (r: Result<seq<string>>)
    ensures r.Ok? <==> forall k :: 0 <= k < |idxs| ==> idxs[k] in encodeMap
    ensures r.Ok? ==> (|r.value| == |idxs| &&
              forall k :: 0 <= k < |idxs| ==> r.value[k] == encodeMap[idxs[k]])
    ensures r.Err? ==> (exists k :: 0 <= k < |idxs| && FirstMissing(encodeMap, idxs, k) &&
                                  r.error == UndefinedSymbol(idxs[k]))
  {
    if |idxs| == 0 then Ok([])
    else if idxs[0] !in encodeMap then Err(UndefinedSymbol(idxs[0]))
    else match LookupWords(encodeMap, idxs[1..])
      case Ok(ws) => Ok([encodeMap[idxs[0]]] + ws)
      case Err(e) =>
        var k :| 0 <= k < |idxs| - 1 && FirstMissing(encodeMap, idxs[1..], k) && e == UndefinedSymbol(idxs[1..][k]);
        assert FirstMissing(encodeMap, idxs, k + 1);
        Err(e)
  }

  lemma FirstMissingUnique(encodeMap: map<nat, string>, idxs: seq<nat>, i: nat)
    requires i < |idxs| && FirstMissing(encodeMap, idxs, i)
    ensures LookupWords(encodeMap, idxs) == Err(UndefinedSymbol(idxs[i]))
  {
    var w := LookupWords(encodeMap, idxs);
    var k :| 0 <= k < |idxs| && FirstMissing(encodeMap, idxs, k) && w.error == UndefinedSymbol(idxs[k]);
    assert k == i;
  }

  /** What `encode` returns on the UTF-8 bytes of its text: the words of the
      chunk indices, joined. */
  function EncodeSpec(c: Codec, data: seq<Byte>, width: nat): Result<string>
    requires width > 0
  {
    match LookupWords(c.encodeMap, ChunkIndices(data, width))
    case Ok(ws) => Ok(Concat(ws))
    case Err(e) => Err(e)
  }

  /** `Custom64.encode` from the UTF-8 bytes on: one word per chunk, in chunk
      order, or the first undefined index. */
  method Encode(c: Codec, data: seq<Byte>, width: nat) returns (r: Result<string>)
    requires width > 0
    ensures r == EncodeSpec(c, data, width)
  {
    var bits := BytesToBits(data);
    var chunks := ChunkAndPad(bits, width);
    ghost var idxs := ChunkIndices(data, width);
    assert |idxs| == |chunks|;
    var result: seq<string> := [];
    for i := 0 to |chunks|
      invariant |result| == i
      invariant forall k :: 0 <= k < i ==> idxs[k] in c.encodeMap && result[k] == c.encodeMap[idxs[k]]
    {
      var idx := ValueOf(chunks[i]);
      if idx == 0 && IsZero(chunks[i]) {
        idx := PadIndex;
      }
      assert idx == idxs[i];
      if idx !in c.encodeMap {
        assert FirstMissing(c.encodeMap, idxs, i);
        FirstMissingUnique(c.encodeMap, idxs, i);
        return Err(UndefinedSymbol(idx));
      }
      result := result + [c.encodeMap[idx]];
    }
    assert forall k :: 0 <= k < |idxs| ==> idxs[k] in c.encodeMap;
    var w := LookupWords(c.encodeMap, idxs);
    assert w.value == result;
    r := Ok(Concat(result));
  }

  /** The table holds a word for every value a non-zero chunk of `width`
      bits can take (the pad word is always there). */
  predicate CoversWidth(c: Codec, width: nat) {
    forall v :: 1 <= v < Pow2(width) ==> v in c.encodeMap
  }

  /** Every chunk of the input selects an index other than 0: the pad index
      for an all-zero chunk, the chunk's own value for every other. */
  lemma ChunkIndicesMeaning(data: seq<Byte>, width: nat)
    requires width > 0
    ensures var idxs := ChunkIndices(data, width);
            var chunks := ChunkAndPad(BytesToBits(data), width);
            && |idxs| == |chunks|
            && forall k :: 0 <= k < |idxs| ==>
                 && idxs[k] != 0
                 && idxs[k] == (if IsZero(chunks[k]) then PadIndex else ValueOf(chunks[k]))
                 && (idxs[k] == PadIndex || 1 <= idxs[k] < Pow2(width))
  {
    var chunks := ChunkAndPad(BytesToBits(data), width);
    forall k | 0 <= k < |chunks|
      ensures ChunkIndex(chunks[k]) != 0
      ensures ChunkIndex(chunks[k]) == if IsZero(chunks[k]) then PadIndex else ValueOf(chunks[k])
      ensures ChunkIndex(chunks[k]) == PadIndex || 1 <= ChunkIndex(chunks[k]) < Pow2(width)
    {
      ChunkIndexCases(chunks[k]);
    }
  }

  /** With a covering table, `encode` succeeds and emits exactly one word per
      chunk, `ceil(8 * |data| / width)` words in all, each the word of that
      chunk's index. */
  lemma EncodeWords(c: Codec, data: seq<Byte>, width: nat)
    requires width > 0 && CoversWidth(c, width) && PadIndex in c.encodeMap
    ensures var idxs := ChunkIndices(data, width);
            && |idxs| == (8 * |data| + width - 1) / width
            && LookupWords(c.encodeMap, idxs).Ok?
            && EncodeSpec(c, data, width) == Ok(Concat(LookupWords(c.encodeMap, idxs).value))
  {
    var idxs := ChunkIndices(data, width);
    ChunkCount(BytesToBits(data), width);
    ChunkIndicesMeaning(data, width);
    assert forall k :: 0 <= k < |idxs| ==> idxs[k] in c.encodeMap;
  }

  /** Empty text encodes to the empty string. */
  lemma EncodeEmpty(c: Codec, width: nat)
    requires width > 0
    ensures EncodeSpec(c, [], width) == Ok([])
  {
    DivSmall(width - 1, width);
  }
}
