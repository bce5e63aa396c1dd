/** `Custom64._segment`: greedy longest-match splitting of a word string. */
module Segmenter {
  import opened Bits
  import opened Table
  import opened Encoder

  /** `encoded.startswith(tok, i)` */
  predicate StartsWithAt(s: string, tok: string, i: nat) {
    i + |tok| <= |s| && s[i..i + |tok|] == tok
  }

  /** Some word of length `len` starts at position `i`. */
  predicate MatchAt(words: set<string>, s: string, i: nat, len: nat) {
    i + len <= |s| && s[i..i + len] in words
  }

  /** The greatest `len` in `1..n` for which a word of that length starts at
      `i`, or `None` when there is none. */
  function LongestUpTo(words: set<string>, s: string, i: nat, n: nat): (r: Option<nat>)
    requires i + n <= |s|
    ensures r.Some? ==> 0 < r.value <= n && MatchAt(words, s, i, r.value)
    ensures forall len :: (if r.Some? then r.value else 0) < len <= n ==> !MatchAt(words, s, i, len)
    decreases n
  {
    if n == 0 then None
    else if s[i..i + n] in words then Some(n)
    else LongestUpTo(words, s, i, n - 1)
  }

  datatype Option<T> = None | Some(value: T)

  /** The length of the longest non-empty word that starts at position `i`. */
  function Longest(words: set<string>, s: string, i: nat): Option<nat>
    requires i <= |s|
  {
    LongestUpTo(words, s, i, |s| - i)
  }

  /** What `_segment` returns on `s[i..]`: the longest word at each position
      in turn, or the first position where no word starts. */
  function SegmentFrom(words: set<string>, s: string, i: nat): Result<seq<string>>
    requires i <= |s|
    decreases |s| - i
  {
    if i == |s| then Ok([])
    else match Longest(words, s, i)
      case None => Err(Segmentation(i))
      case Some(len) =>
        match SegmentFrom(words, s, i + len)
        case Ok(rest) => Ok([s[i..i + len]] + rest)
        case Err(e) => Err(e)
  }

  /** The empty word never takes part in a longest match. */
  lemma {:induction false} LongestIgnoresEmpty(words: set<string>, s: string, i: nat, n: nat)
    requires i + n <= |s|
    ensures LongestUpTo(words, s, i, n) == LongestUpTo(words - {""}, s, i, n)
    decreases n
  {
    if n > 0 {
      assert |s[i..i + n]| == n;
      LongestIgnoresEmpty(words, s, i, n - 1);
    }
  }

  /** Segmentation is the same with or without the empty word in the table:
      the scan tries the empty word last, only where no other word starts. */
  lemma {:induction false} SegmentIgnoresEmpty(words: set<string>, s: string, i: nat)
    requires i <= |s|
    ensures SegmentFrom(words, s, i) == SegmentFrom(words - {""}, s, i)
    decreases |s| - i
  {
    if i < |s| {
      LongestIgnoresEmpty(words, s, i, |s| - i);
      match Longest(words, s, i)
      case None =>
      case Some(len) =>
        SegmentIgnoresEmpty(words, s, i + len);
    }
  }

  /** `prefix` followed by the segments of `r`, or the error of `r`. */
  function Prefixed(prefix: seq<string>, r: Result<seq<string>>): Result<seq<string>> {
    match r
    case Ok(rest) => Ok(prefix + rest)
    case Err(e) => Err(e)
  }

  /** b64.py:53: the words in order of non-increasing length.
      (The source's `sorted` breaks ties by table order; no tie can change
      the outcome of `_segment`, since two words of the same length that both
      start at one position are the same word.) */
  method SortByLength(words: set<string>) returns (tokens: seq<string>)
    ensures forall t :: t in tokens <==> t in words
    ensures |tokens| == |words|
    ensures LongestFirst(tokens)
  {
    tokens := [];
    var rest := words;
    while rest != {}
      invariant rest !! set t | t in tokens
      invariant forall t :: t in words <==> t in rest || t in tokens
      invariant |tokens| + |rest| == |words|
      invariant forall a, b :: 0 <= a < b < |tokens| ==> |tokens[a]| >= |tokens[b]|
      invariant forall a, u :: 0 <= a < |tokens| && u in rest ==> |tokens[a]| >= |u|
      decreases |rest|
    {
      LongestExists(rest);
      var t :| t in rest && forall u :: u in rest ==> |u| <= |t|;
      tokens := tokens + [t];
      rest := rest - {t};
    }
    PairsLongestFirst(tokens);
  }

  /** Each token is at least as long as the next one. */
  predicate LongestFirst(tokens: seq<string>)
    decreases |tokens|
  {
    |tokens| <= 1 || (|tokens[0]| >= |tokens[1]| && LongestFirst(tokens[1..]))
  }

  lemma {:induction false} PairsLongestFirst(tokens: seq<string>)
    requires forall a, b :: 0 <= a < b < |tokens| ==> |tokens[a]| >= |tokens[b]|
    ensures LongestFirst(tokens)
    decreases |tokens|
  {
    if |tokens| > 1 {
      var tail := tokens[1..];
      assert forall a, b :: 0 <= a < b < |tail| ==> |tail[a]| >= |tail[b]| by {
        forall a, b | 0 <= a < b < |tail| ensures |tail[a]| >= |tail[b]| {
          assert tail[a] == tokens[a + 1] && tail[b] == tokens[b + 1];
        }
      }
      PairsLongestFirst(tail);
    }
  }

  /** In a list sorted longest first, no token is shorter than a later one. */
  lemma {:induction false} LongestFirstOrder(tokens: seq<string>, a: nat, b: nat)
    requires LongestFirst(tokens) && a < b < |tokens|
    ensures |tokens[a]| >= |tokens[b]|
    decreases |tokens|
  {
    var tail := tokens[1..];
    if b > 1 {
      LongestFirstOrder(tail, if a == 0 then 0 else a - 1, b - 1);
      if a == 0 {
        assert |tokens[0]| >= |tokens[1]|;
      }
    }
  }

  /** A non-empty finite set of words has a longest member. */
  lemma {:induction false} LongestExists(words: set<string>)
    requires words != {}
    ensures exists t :: t in words && forall u :: u in words ==> |u| <= |t|
    decreases |words|
  {
    var x :| x in words;
    var others := words - {x};
    if others != {} {
      LongestExists(others);
      var y :| y in others && forall u :: u in others ==> |u| <= |y|;
      if |x| <= |y| {
        assert forall u :: u in words ==> |u| <= |y|;
      } else {
        assert forall u :: u in words ==> |u| <= |x|;
      }
    } else {
      assert words == {x};
    }
  }

  /** `Custom64._segment`: scan the words longest first at the cursor, take
      the first that matches and move past it; fail with the cursor when none
      matches. */
  method Segment(c: Codec, s: string) returns (r: Result<seq<string>>)
    requires "" !in c.decodeMap
    ensures r == SegmentFrom(c.decodeMap.Keys, s, 0)
  {
    var words := c.decodeMap.Keys;
    var tokens := SortByLength(words);
    var segments: seq<string> := [];
    var i := 0;
    ghost var whole := SegmentFrom(words, s, 0);
    PrefixedNil(whole);
    while i < |s|
      invariant 0 <= i && Scanned(words, s, i, segments, whole)
      decreases |s| - i
    {
      var j := FirstMatch(tokens, s, i);
      if j == |tokens| {
        NoTokenMatches(words, tokens, s, i);
        ScanFails(segments, SegmentFrom(words, s, i), whole, i);
        return Err(Segmentation(i));
      }
      var tok := tokens[j];
      ScanStep(words, tokens, s, i, j, segments, whole, segments + [tok], i + |tok|);
      segments := segments + [tok];
      i := i + |tok|;
    }
    ScanDone(segments, SegmentFrom(words, s, i), whole);
    r := Ok(segments);
  }

  /** A scan that stops at the first position where no word starts reports
      that position, whatever it took before. */
  lemma ScanFails(segments: seq<string>, rest: Result<seq<string>>,
                  whole: Result<seq<string>>, i: nat)
    requires rest == Err(Segmentation(i)) && whole == Prefixed(segments, rest)
    ensures whole == Err(Segmentation(i))
  {
  }

  /** A scan that reaches the end has found the whole segmentation. */
  lemma ScanDone(segments: seq<string>, rest: Result<seq<string>>,
                 whole: Result<seq<string>>)
    requires rest == Ok([]) && whole == Prefixed(segments, rest)
    ensures whole == Ok(segments)
  {
    assert segments + [] == segments;
  }

  /** The scan's invariant: the segments found before cursor `i`, followed
      by the segmentation from `i`, make up the whole segmentation. */
  ghost predicate Scanned(words: set<string>, s: string, i: nat,
                          segments: seq<string>, whole: Result<seq<string>>) {
    i <= |s| && whole == Prefixed(segments, SegmentFrom(words, s, i))
  }

  /** One round of the scan: taking the first matching token keeps the
      segments found so far, followed by the segmentation from the new
      cursor, equal to the whole segmentation. */
  lemma ScanStep(words: set<string>, tokens: seq<string>, s: string, i: nat, j: nat,
                 segments: seq<string>, whole: Result<seq<string>>,
                 segments': seq<string>, i': nat)
    requires i < |s| && j < |tokens| && "" !in words
    requires forall t :: t in tokens <==> t in words
    requires LongestFirst(tokens)
    requires StartsWithAt(s, tokens[j], i)
    requires forall k :: 0 <= k < j ==> !StartsWithAt(s, tokens[k], i)
    requires Scanned(words, s, i, segments, whole)
    requires segments' == segments + [tokens[j]] && i' == i + |tokens[j]|
    ensures i < i' && Scanned(words, s, i', segments', whole)
  {
    assert tokens[j] in words;
    FirstTokenIsLongest(words, tokens, s, i, j);
    PrefixedAssoc(segments, [tokens[j]], SegmentFrom(words, s, i + |tokens[j]|));
  }

  /** b64.py:56-60: the position in `tokens` of the first
      token that starts at the cursor, or `|tokens|` when none does. */
  method FirstMatch(tokens: seq<string>, s: string, i: nat) returns (j: nat)
    ensures j <= |tokens|
    ensures j < |tokens| ==> StartsWithAt(s, tokens[j], i)
    ensures forall k :: 0 <= k < j ==> !StartsWithAt(s, tokens[k], i)
  {
    j := 0;
    while j < |tokens| && !StartsWithAt(s, tokens[j], i)
      invariant j <= |tokens|
      invariant forall k :: 0 <= k < j ==> !StartsWithAt(s, tokens[k], i)
    {
      j := j + 1;
    }
  }

  /** When no token starts at the cursor, the longest match is empty. */
  lemma NoTokenMatches(words: set<string>, tokens: seq<string>, s: string, i: nat)
    requires i < |s|
    requires forall t :: t in tokens <==> t in words
    requires forall k :: 0 <= k < |tokens| ==> !StartsWithAt(s, tokens[k], i)
    ensures SegmentFrom(words, s, i) == Err(Segmentation(i))
  {
  }

  /** In a list sorted longest first, the first token that starts at the
      cursor is a longest word that does. */
  lemma FirstTokenIsLongest(words: set<string>, tokens: seq<string>, s: string, i: nat, j: nat)
    requires i < |s| && j < |tokens| && "" !in words
    requires forall t :: t in tokens <==> t in words
    requires LongestFirst(tokens)
    requires StartsWithAt(s, tokens[j], i)
    requires forall k :: 0 <= k < j ==> !StartsWithAt(s, tokens[k], i)
    ensures Longest(words, s, i) == Some(|tokens[j]|)
    ensures SegmentFrom(words, s, i) == Prefixed([tokens[j]], SegmentFrom(words, s, i + |tokens[j]|))
  {
    var tok := tokens[j];
    assert tok in words;
    assert MatchAt(words, s, i, |tok|);
    var len := Longest(words, s, i).value;
    assert len >= |tok|;
    var k :| 0 <= k < |tokens| && tokens[k] == s[i..i + len];
    assert StartsWithAt(s, tokens[k], i);
    assert len == |tok| by {
      if k < j {
        assert false;
      } else if j < k {
        LongestFirstOrder(tokens, j, k);
      }
    }
    LongestStep(words, s, i, len);
  }

  /** Segmentation at a cursor where a longest match exists takes that
      match and continues after it. */
  lemma LongestStep(words: set<string>, s: string, i: nat, len: nat)
    requires i < |s| && Longest(words, s, i) == Some(len)
    ensures i + len <= |s|
    ensures SegmentFrom(words, s, i) == Prefixed([s[i..i + len]], SegmentFrom(words, s, i + len))
  {
  }

  lemma PrefixedNil(r: Result<seq<string>>)
    ensures Prefixed([], r) == r
  {
    if r.Ok? {
      assert [] + r.value == r.value;
    }
  }

  lemma PrefixedAssoc(p: seq<string>, q: seq<string>, r: Result<seq<string>>)
    ensures Prefixed(p, Prefixed(q, r)) == Prefixed(p + q, r)
  {
    if r.Ok? {
      assert p + (q + r.value) == (p + q) + r.value;
    }
  }

  /** A successful segmentation splits the string exactly: the segments,
      joined, are the string, and each of them is a word of the table (so the
      "undefined symbol" check after `_segment` can never fire). */
  lemma {:induction false} SegmentCovers(words: set<string>, s: string, i: nat)
    requires i <= |s|
    requires SegmentFrom(words, s, i).Ok?
    ensures var segs := SegmentFrom(words, s, i).value;
            && Concat(segs) == s[i..]
            && forall k :: 0 <= k < |segs| ==> segs[k] in words && segs[k] != ""
    decreases |s| - i
  {
    if i < |s| {
      var len := Longest(words, s, i).value;
      SegmentCovers(words, s, i + len);
      var rest := SegmentFrom(words, s, i + len).value;
      ConcatCons(s[i..i + len], rest);
      assert s[i..i + len] + s[i + len..] == s[i..];
    }
  }

  /** Greedy precedence: the first segment is a longest word starting at the
      cursor; no longer word starts there. */
  lemma SegmentGreedy(words: set<string>, s: string, i: nat, w: string)
    requires i <= |s| && w in words && StartsWithAt(s, w, i)
    requires SegmentFrom(words, s, i).Ok? && |SegmentFrom(words, s, i).value| > 0
    ensures |w| <= |SegmentFrom(words, s, i).value[0]|
  {
    assert MatchAt(words, s, i, |w|);
  }

  /** A segmentation fails at position `p` only when no non-empty word starts
      at `p`, after the part of the string before `p` has been consumed:
      `s[i..p]` segments on its own. */
  lemma {:induction false} SegmentFails(words: set<string>, s: string, i: nat)
    requires i <= |s|
    requires SegmentFrom(words, s, i).Err?
    ensures var e := SegmentFrom(words, s, i).error;
            && e.Segmentation?
            && i <= e.position < |s|
            && (forall w :: w in words && w != "" ==> !StartsWithAt(s, w, e.position))
            && SegmentFrom(words, s[..e.position], i).Ok?
            && Concat(SegmentFrom(words, s[..e.position], i).value) == s[i..e.position]
    decreases |s| - i
  {
    match Longest(words, s, i)
    case None =>
      forall w | w in words && w != "" && StartsWithAt(s, w, i) ensures false {
        assert MatchAt(words, s, i, |w|);
      }
      assert s[i..i] == [];
    case Some(len) =>
      LongestStep(words, s, i, len);
      var rest := SegmentFrom(words, s, i + len);
      assert rest.Err? && SegmentFrom(words, s, i).error == rest.error;
      SegmentFails(words, s, i + len);
      var p := rest.error.position;
      LongestPrefix(words, s, i, p);
      var t := s[..p];
      LongestStep(words, t, i, len);
      SegmentCovers(words, t, i);
      assert t[i..] == s[i..p];
  }

  /** Cutting the string off at `p` does not change the longest match at `i`
      when that match ends at or before `p`. */
  lemma LongestPrefix(words: set<string>, s: string, i: nat, p: nat)
    requires i <= p <= |s|
    requires Longest(words, s, i).Some? && i + Longest(words, s, i).value <= p
    ensures Longest(words, s[..p], i) == Longest(words, s, i)
  {
    var len := Longest(words, s, i).value;
    var t := s[..p];
    assert t[i..i + len] == s[i..i + len];
    assert MatchAt(words, t, i, len);
    forall l | len < l <= |t| - i
      ensures !MatchAt(words, t, i, l)
    {
      assert t[i..i + l] == s[i..i + l];
      assert !MatchAt(words, s, i, l);
    }
  }

  /** No word of the table is a proper prefix of another. */
  predicate PrefixFree(words: set<string>) {
    forall a, b :: a in words && b in words && a != b ==> !ProperPrefix(a, b)
  }

  predicate ProperPrefix(a: string, b: string) {
    |a| < |b| && b[..|a|] == a
  }

  /** In a prefix-free table, a word that starts at the cursor is the
      longest match there. */
  lemma LongestIsWord(words: set<string>, s: string, i: nat, w: string)
    requires PrefixFree(words) && w in words && w != ""
    requires StartsWithAt(s, w, i)
    ensures Longest(words, s, i) == Some(|w|)
  {
    assert MatchAt(words, s, i, |w|);
  }

  /** A string that continues with `w` and then `rest` starts with `w`. */
  lemma ConcatHead(w: string, rest: seq<string>, s: string, i: nat)
    requires i <= |s| && s[i..] == Concat([w] + rest)
    ensures StartsWithAt(s, w, i) && s[i + |w|..] == Concat(rest)
  {
    ConcatCons(w, rest);
    assert s[i..][..|w|] == w;
    assert s[i..][|w|..] == Concat(rest);
  }

  /** In a prefix-free table without the empty word, a concatenation of
      words segments back into exactly those words. */
  lemma {:induction false} SegmentUnique(words: set<string>, ws: seq<string>, s: string, i: nat)
    requires PrefixFree(words) && "" !in words
    requires forall k :: 0 <= k < |ws| ==> ws[k] in words
    requires i <= |s| && s[i..] == Concat(ws)
    ensures SegmentFrom(words, s, i) == Ok(ws)
    decreases |ws|
  {
    if |ws| == 0 {
      assert |s[i..]| == 0;
    } else {
      var w := ws[0];
      assert ws == [w] + ws[1..];
      ConcatHead(w, ws[1..], s, i);
      LongestIsWord(words, s, i, w);
      LongestStep(words, s, i, |w|);
      SegmentUnique(words, ws[1..], s, i + |w|);
      assert s[i..i + |w|] == w;
      assert SegmentFrom(words, s, i) == Prefixed([w], Ok(ws[1..]));
    }
  }
}
