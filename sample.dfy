/** The sample configuration of the source (`sample_map`, with the default
    pad word) and concrete checks on it: "A" encodes to "香蕉香蕉" and that
    decodes back to "A". */
module Sample {
  import opened Bits
  import opened Table
  import opened Encoder
  import opened Segmenter
  import opened Decoder
  import opened RoundTrip

  /** The word list of `sample_map`, indices 0 to 66 in order. */
  const SampleWords: seq<string> :=
    ["香香", "软软", "甜甜", "糯糯", "蜂蜜", "奶油", "腻腻", "酥酥", "脆脆", "滑滑", "嫩嫩"] +
    ["番茄炒可乐", "番茄炒科比", "草莓", "蓝莓", "苹果", "香蕉", "葡萄", "酸酸", "辣辣"] +
    ["爽爽", "咸咸", "鲜鲜", "苦苦", "甘甘", "绵绵", "弹弹", "润润", "油油", "清清"] +
    ["浓浓", "醇醇", "淡淡", "幽幽", "热热乎乎", "冰冰凉凉", "黏黏", "糊糊", "麻麻"] +
    ["橙子", "西瓜", "樱桃", "菠萝", "猕猴桃", "桃子", "梨", "杏", "李子", "西红柿"] +
    ["黄瓜", "胡萝卜", "生菜", "菠菜", "花椰菜", "卷心菜", "洋葱", "大蒜", "土豆", "红薯"] +
    ["南瓜", "玉米", "豌豆", "扁豆", "红豆", "绿豆", "黄豆", "黑豆"]

  /** The default pad word. */
  const PadWord: string := "的"

  /** `sample_map`: the enumerated word list, then key 65 set to the pad
      word, which replaces "黄豆" in place. */
  function SampleMapping(): seq<(nat, string)> {
    var enumerated := seq(|SampleWords|, i requires 0 <= i < |SampleWords| => (i as nat, SampleWords[i]));
    enumerated[65 := (65, PadWord)]
  }

  /** Entry `k` of the sample mapping is index `k` with the `k`-th word, or
      with the pad word at the pad index. */
  lemma SampleEntry()
    ensures |SampleMapping()| == 67
    ensures forall k :: 0 <= k < 67 ==>
              SampleMapping()[k] == (k, if k == 65 then PadWord else SampleWords[k])
  {
  }

  /** The entries the special-index checks use. */
  lemma SampleEntries()
    ensures |SampleMapping()| == 67
    ensures SampleMapping()[16] == (16, "香蕉")
    ensures SampleMapping()[64] == (64, "绿豆")
    ensures SampleMapping()[66] == (66, "黑豆")
  {
  }

  /** The sample mapping, being a dictionary, has no repeated index. */
  lemma SampleDistinct()
    ensures DistinctIndices(SampleMapping())
  {
    SampleEntry();
  }

  /** `coder = Custom64(sample_map)` */
  function SampleCodec(): Codec {
    SampleDistinct();
    New(SampleMapping(), PadWord)
  }

  /** Looking up an entry's index gives the entry's word, unless the pad
      overrides that index. */
  lemma EntryLookup(e: seq<(nat, string)>, pad: string, k: nat)
    requires DistinctIndices(e) && k < |e| && e[k].0 != PadIndex
    ensures e[k].0 in New(e, pad).encodeMap && New(e, pad).encodeMap[e[k].0] == e[k].1
  {
    assert e[k] in e;
  }

  /** A word used by no entry and not the pad has no index. */
  lemma AbsentWord(e: seq<(nat, string)>, pad: string, w: string)
    requires DistinctIndices(e) && w != pad
    requires forall k :: 0 <= k < |e| ==> e[k].1 != w
    ensures w !in New(e, pad).decodeMap
  {
  }

  /** A word that only entry `k` uses, and that is not the pad, maps back to
      that entry's index. */
  lemma UniqueWordIndex(e: seq<(nat, string)>, pad: string, k: nat)
    requires DistinctIndices(e) && k < |e| && e[k].1 != pad
    requires forall b :: k < b < |e| ==> e[b].1 != e[k].1
    ensures e[k].1 in New(e, pad).decodeMap && New(e, pad).decodeMap[e[k].1] == e[k].0
  {
    assert e[k] in e;
    InvertLaterWins(e, k);
  }

  /** The sample table's special indices: 65 holds the pad word in both
      directions, 64 and 66 hold words outside the 6-bit range, and 16 is
      "香蕉", which maps back to 16. */
  lemma SampleSpecialIndices()
    ensures PadIndex in SampleCodec().encodeMap && SampleCodec().encodeMap[PadIndex] == "的"
    ensures "的" in SampleCodec().decodeMap && SampleCodec().decodeMap["的"] == PadIndex
    ensures 16 in SampleCodec().encodeMap && SampleCodec().encodeMap[16] == "香蕉"
    ensures 64 in SampleCodec().encodeMap && SampleCodec().encodeMap[64] == "绿豆"
    ensures 66 in SampleCodec().encodeMap && SampleCodec().encodeMap[66] == "黑豆"
  {
    SampleDistinct();
    SampleEntries();
    var e := SampleMapping();
    EntryLookup(e, PadWord, 16);
    EntryLookup(e, PadWord, 64);
    EntryLookup(e, PadWord, 66);
  }

  /** A word that the list holds only at index `k`, other than the pad
      index, maps back to `k` in the sample table. */
  lemma SampleWordIndex(k: nat, w: string)
    requires k < |SampleWords| && k != PadIndex && SampleWords[k] == w && w != PadWord
    requires forall j :: 0 <= j < |SampleWords| && SampleWords[j] == w ==> j == k
    ensures w in SampleCodec().decodeMap && SampleCodec().decodeMap[w] == k
  {
    SampleDistinct();
    SampleEntry();
    var e := SampleMapping();
    assert e[k] == (k, w);
    forall b | k < b < |e|
      ensures e[b].1 != e[k].1
    {
      if b != PadIndex {
        assert e[b].1 == SampleWords[b];
      }
    }
    UniqueWordIndex(e, PadWord, k);
  }

  /** "香蕉" is used once, so it maps back to 16. */
  lemma SampleBanana()
    ensures "香蕉" in SampleCodec().decodeMap && SampleCodec().decodeMap["香蕉"] == 16
  {
    BananaOnce();
    SampleWordIndex(16, "香蕉");
  }

  /** "香蕉" occurs once in the list, at 16. */
  lemma BananaOnce()
    ensures forall k :: 0 <= k < |SampleWords| && SampleWords[k] == "香蕉" ==> k == 16
  {
  }

  /** "黄豆" occurs once in the list, at 65. */
  lemma YellowBeanOnce()
    ensures forall k :: 0 <= k < |SampleWords| && SampleWords[k] == "黄豆" ==> k == 65
  {
  }

  /** Setting key 65 to the pad word drops "黄豆" from the sample table:
      it cannot be decoded. */
  lemma PadReplacesWord()
    ensures "黄豆" !in SampleCodec().decodeMap
  {
    SampleDistinct();
    SampleEntry();
    YellowBeanOnce();
    AbsentWord(SampleMapping(), PadWord, "黄豆");
  }

  /** No word of the list is empty, and none is one of the other prefixes
      of "香蕉香蕉". */
  lemma NoEmptyWord()
    ensures forall k :: 0 <= k < |SampleWords| ==> SampleWords[k] != ""
  {
  }

  lemma NoWordXiang()
    ensures forall k :: 0 <= k < |SampleWords| ==> SampleWords[k] != "香"
  {
  }

  lemma NoWordXiangJiaoXiang()
    ensures forall k :: 0 <= k < |SampleWords| ==> SampleWords[k] != "香蕉香"
  {
  }

  lemma NoWordXiangJiaoTwice()
    ensures forall k :: 0 <= k < |SampleWords| ==> SampleWords[k] != "香蕉香蕉"
  {
  }

  /** A word outside the list, other than the pad word, is not a key of the
      sample table. */
  lemma AbsentFromSample(w: string)
    requires w != PadWord
    requires forall k :: 0 <= k < |SampleWords| ==> SampleWords[k] != w
    ensures w !in SampleCodec().decodeMap
  {
    SampleDistinct();
    SampleEntry();
    AbsentWord(SampleMapping(), PadWord, w);
  }

  /** The empty word and the other prefixes of "香蕉香蕉" are not words of
      the sample table. */
  lemma SampleAbsentWords()
    ensures "" !in SampleCodec().decodeMap
    ensures "香" !in SampleCodec().decodeMap
    ensures "香蕉香" !in SampleCodec().decodeMap
    ensures "香蕉香蕉" !in SampleCodec().decodeMap
  {
    NoEmptyWord();
    AbsentFromSample("");
    NoWordXiang();
    AbsentFromSample("香");
    NoWordXiangJiaoXiang();
    AbsentFromSample("香蕉香");
    NoWordXiangJiaoTwice();
    AbsentFromSample("香蕉香蕉");
  }

  /** 010000 is 16. */
  lemma ValueOfSixteen()
    ensures ValueOf([false, true, false, false, false, false]) == 16
  {
    var b1: BitString := [false];
    var b2: BitString := [false, true];
    var b3: BitString := [false, true, false];
    var b4: BitString := [false, true, false, false];
    var b5: BitString := [false, true, false, false, false];
    var b6: BitString := [false, true, false, false, false, false];
    assert b1[..0] == [] && b2[..1] == b1 && b3[..2] == b2;
    assert b4[..3] == b3 && b5[..4] == b4 && b6[..5] == b5;
    assert ValueOf(b1) == 0;
    assert ValueOf(b2) == 1;
    assert ValueOf(b3) == 2;
    assert ValueOf(b4) == 4;
    assert ValueOf(b5) == 8;
  }

  /** The bits of "A": 0x41 is 01000001. */
  lemma BitsOfA()
    ensures BytesToBits([0x41]) == [false, true, false, false, false, false, false, true]
  {
    var b6: BitString := [false, true, false, false, false, false];
    var b7: BitString := [false, true, false, false, false, false, false];
    var a: BitString := [false, true, false, false, false, false, false, true];
    ValueOfSixteen();
    assert b7[..6] == b6 && a[..7] == b7;
    assert ValueOf(b7) == 32;
    assert ValueOf(a) == 0x41;
    assert [0x41][..0] == [];
    assert BytesToBits([0x41]) == ByteBits(0x41);
    ValueInjective(ByteBits(0x41), a);
  }

  /** Two pieces concatenate to the first followed by the second. */
  lemma ConcatPair<T>(ss: seq<seq<T>>)
    requires |ss| == 2
    ensures Concat(ss) == ss[0] + ss[1]
  {
    assert ss[..1][..0] == [];
    assert Concat(ss[..1]) == ss[0];
  }

  /** Two concatenations with equally long first parts agree part by part. */
  lemma SameHalves<T>(x: seq<T>, y: seq<T>, a: seq<T>, b: seq<T>)
    requires x + y == a + b && |x| == |a|
    ensures x == a && y == b
  {
    assert x == (x + y)[..|x|] && a == (a + b)[..|a|];
    assert y == (x + y)[|x|..] && b == (a + b)[|a|..];
  }

  /** 01000001 padded with four zeros is 010000 twice. */
  lemma PaddedA()
    ensures BytesToBits([0x41]) + Zeros(4) ==
              [false, true, false, false, false, false] + [false, true, false, false, false, false]
  {
    BitsOfA();
    assert Zeros(4) == [false, false, false, false];
  }

  /** Padded to 12 bits, 01000001 is the two 6-bit chunks 010000 010000,
      index 16 twice. */
  lemma ChunksOfA()
    ensures ChunkIndices([0x41], 6) == [16, 16]
  {
    var bits := BytesToBits([0x41]);
    var chunks := ChunkAndPad(bits, 6);
    var sixteen: BitString := [false, true, false, false, false, false];
    assert |bits| == 8 by {
      BitsOfA();
    }
    assert |chunks| == 2 by {
      ChunkCount(bits, 6);
    }
    assert PadLength(8, 6) == 4;
    ConcatPair(chunks);
    PaddedA();
    SameHalves(chunks[0], chunks[1], sixteen, sixteen);
    ValueOfSixteen();
    assert ChunkIndex(sixteen) == 16;
    var idxs := ChunkIndices([0x41], 6);
    assert |idxs| == 2 && idxs[0] == 16 && idxs[1] == 16;
  }

  /** Any table whose index 16 is "香蕉" encodes "A" as "香蕉香蕉" at
      width 6. */
  lemma EncodeAWith(c: Codec)
    requires 16 in c.encodeMap && c.encodeMap[16] == "香蕉"
    ensures EncodeSpec(c, [0x41], 6) == Ok("香蕉香蕉")
  {
    ChunksOfA();
    var r := LookupWords(c.encodeMap, [16, 16]);
    assert r.Ok?;
    var ws: seq<string> := ["香蕉", "香蕉"];
    assert r.value == ws;
    ConcatPair(ws);
    assert "香蕉" + "香蕉" == "香蕉香蕉";
    assert EncodeSpec(c, [0x41], 6) == Ok(Concat(ws));
  }

  /** `coder.encode("A")` is "香蕉香蕉". */
  lemma EncodeA()
    ensures EncodeSpec(SampleCodec(), [0x41], 6) == Ok("香蕉香蕉")
  {
    SampleSpecialIndices();
    EncodeAWith(SampleCodec());
  }

  /** Where "香蕉" is the only non-empty prefix of "香蕉香蕉" that is a
      word, the text segments into "香蕉" twice. */
  lemma SegmentBanana(words: set<string>)
    requires "" !in words && "香" !in words && "香蕉香" !in words && "香蕉香蕉" !in words
    requires "香蕉" in words
    ensures SegmentFrom(words, "香蕉香蕉", 0) == Ok(["香蕉", "香蕉"])
  {
    var s := "香蕉香蕉";
    assert s[0..4] == "香蕉香蕉" && s[0..3] == "香蕉香" && s[0..2] == "香蕉";
    assert Longest(words, s, 0) == Some(2);
    assert s[2..4] == "香蕉";
    assert Longest(words, s, 2) == Some(2);
    assert SegmentFrom(words, s, 4) == Ok([]);
    assert SegmentFrom(words, s, 2) == Ok([s[2..4]] + []);
    assert SegmentFrom(words, s, 0) == Ok([s[0..2]] + ([s[2..4]] + []));
    assert [s[0..2]] + ([s[2..4]] + []) == ["香蕉", "香蕉"];
  }

  /** Index 16 twice stands for the byte 0x41. */
  lemma BytesOfSixteens()
    ensures IndicesToBytes([16, 16], 6) == [0x41]
  {
    ChunksOfA();
    IndicesToBytesOfChunks([0x41], 6);
    assert [0x41][..0] == [];
    assert RemoveZeros([0x41]) == [0x41];
  }

  /** Any table where "香蕉" is the only non-empty prefix of "香蕉香蕉" that
      is a word, with index 16, decodes "香蕉香蕉" to "A" at width 6. */
  lemma DecodeAWith(c: Codec)
    requires "" !in c.decodeMap && "香" !in c.decodeMap
    requires "香蕉香" !in c.decodeMap && "香蕉香蕉" !in c.decodeMap
    requires "香蕉" in c.decodeMap && c.decodeMap["香蕉"] == 16
    ensures DecodeSpec(c, "香蕉香蕉", 6) == Ok([0x41])
  {
    SegmentBanana(c.decodeMap.Keys);
    var segs: seq<string> := ["香蕉", "香蕉"];
    assert !HasUnknown(c, segs);
    var idxs := seq(|segs|, k requires 0 <= k < |segs| => c.decodeMap[segs[k]]);
    assert idxs == [16, 16];
    BytesOfSixteens();
  }

  /** `coder.decode("香蕉香蕉")` is "A". */
  lemma DecodeA()
    ensures "" !in SampleCodec().decodeMap
    ensures DecodeSpec(SampleCodec(), "香蕉香蕉", 6) == Ok([0x41])
  {
    SampleBanana();
    SampleAbsentWords();
    DecodeAWith(SampleCodec());
  }
}
