/** The codec's lookup tables and their construction (`Custom64.__init__`). */
module Table {

  /** The index reserved for padding; the source fixes it at 65, just outside
      the 64 data indices of the 6-bit alphabet. */
  const PadIndex: nat := 65

  /** The two tables of a `Custom64` object: index to word and word to index.
      Neither changes after construction. */
  datatype Codec = Codec(encodeMap: map<nat, string>, decodeMap: map<string, nat>)

  /** A configuration mapping, as its (index, word) entries in insertion
      order. Being a dictionary, it never repeats an index. */
  predicate DistinctIndices(entries: seq<(nat, string)>) {
    forall a, b :: 0 <= a < b < |entries| ==> entries[a].0 != entries[b].0
  }

  function IndicesOf(entries: seq<(nat, string)>): set<nat> {
    set e | e in entries :: e.0
  }

  function WordsOf(entries: seq<(nat, string)>): set<string> {
    set e | e in entries :: e.1
  }

  /** `{int(k): v for k, v in mapping.items()}`: every entry is kept. */
  function ToMap(entries: seq<(nat, string)>): (m: map<nat, string>)
    requires DistinctIndices(entries)
    ensures m.Keys == IndicesOf(entries)
    ensures forall e :: e in entries ==> m[e.0] == e.1
  {
    if |entries| == 0 then map[]
    else
      var p := entries[..|entries| - 1];
      var last := entries[|entries| - 1];
      assert forall e :: e in entries ==> e in p || e == last;
      assert IndicesOf(entries) == IndicesOf(p) + {last.0};
      LastIndexNew(entries);
      ToMap(p)[last.0 := last.1]
  }

  /** In a mapping without repeated indices, the last entry's index is not
      used by any earlier entry. */
  lemma LastIndexNew(entries: seq<(nat, string)>)
    requires DistinctIndices(entries) && |entries| > 0
    ensures forall e :: e in entries[..|entries| - 1] ==> e.0 != entries[|entries| - 1].0
  {
    var n := |entries| - 1;
    forall e | e in entries[..n]
      ensures e.0 != entries[n].0
    {
      var a :| 0 <= a < n && entries[a] == e;
    }
  }

  /** `{v: k for k, v in encode_map.items()}`: each word maps back to an
      index it came from; when a word occurs twice, the later entry wins. */
  function Invert(entries: seq<(nat, string)>): (m: map<string, nat>)
    ensures m.Keys == WordsOf(entries)
    ensures forall w :: w in m ==> (m[w], w) in entries
  {
    if |entries| == 0 then map[]
    else
      var p := entries[..|entries| - 1];
      var last := entries[|entries| - 1];
      assert forall e :: e in entries ==> e in p || e == last;
      assert WordsOf(entries) == WordsOf(p) + {last.1};
      Invert(p)[last.1 := last.0]
  }

  /** In the inverse, a word maps to the index of its last entry: an entry's
      index survives unless a later entry repeats its word. */
  lemma {:induction false} InvertLaterWins(entries: seq<(nat, string)>, a: nat)
    requires a < |entries|
    ensures var m := Invert(entries);
            m[entries[a].1] == entries[a].0 ||
            exists b :: a < b < |entries| && entries[b].1 == entries[a].1
  {
    var n := |entries| - 1;
    if a < n && entries[n].1 != entries[a].1 {
      InvertLaterWins(entries[..n], a);
      var p := entries[..n];
      if Invert(p)[p[a].1] != p[a].0 {
        var b :| a < b < |p| && p[b].1 == p[a].1;
        assert entries[b].1 == entries[a].1;
      }
    }
  }

  /** `Custom64.__init__`: build both tables from the mapping, then install
      the pad word at the pad index in both directions, overriding whatever
      the mapping held for that index or that word. */
  function New(entries: seq<(nat, string)>, pad: string): (c: Codec)
    requires DistinctIndices(entries)
    ensures c.encodeMap.Keys == IndicesOf(entries) + {PadIndex}
    ensures c.decodeMap.Keys == WordsOf(entries) + {pad}
    ensures c.encodeMap[PadIndex] == pad && c.decodeMap[pad] == PadIndex
    ensures forall e :: e in entries && e.0 != PadIndex ==> c.encodeMap[e.0] == e.1
    ensures forall w :: w in c.decodeMap && w != pad ==> (c.decodeMap[w], w) in entries
  {
    var encodeMap := ToMap(entries);
    var decodeMap := Invert(entries);
    Codec(encodeMap[PadIndex := pad], decodeMap[pad := PadIndex])
  }

  /** No word is used twice by the mapping. */
  predicate DistinctWords(entries: seq<(nat, string)>) {
    forall a, b :: 0 <= a < b < |entries| ==> entries[a].1 != entries[b].1
  }

  /** With distinct words, construction gives two tables that invert each
      other on every entry that the pad does not override. */
  lemma NewInverts(entries: seq<(nat, string)>, pad: string)
    requires DistinctIndices(entries) && DistinctWords(entries)
    ensures forall e :: e in entries && e.0 != PadIndex && e.1 != pad ==>
              var c := New(entries, pad);
              c.encodeMap[e.0] == e.1 && c.decodeMap[e.1] == e.0
  {
    var c := New(entries, pad);
    forall e | e in entries && e.0 != PadIndex && e.1 != pad
      ensures c.decodeMap[e.1] == e.0
    {
      var a :| 0 <= a < |entries| && entries[a] == e;
      InvertLaterWins(entries, a);
    }
  }
}
