/** Bit strings as the codec builds them: the text `'0'`/`'1'` strings of the
    source become sequences of booleans, most significant bit first. */
module Bits {

  /** A bit string, most significant bit first; `true` stands for `'1'`. */
  type BitString = seq<bool>

  /** One byte of the UTF-8 encoding of the input text. */
  type Byte = b: int | 0 <= b < 256

  function Pow2(n: nat): (r: nat)
    ensures r >= 1
  {
    if n == 0 then 1 else 2 * Pow2(n - 1)
  }

  lemma {:induction false} Pow2Monotone(m: nat, n: nat)
    requires m <= n
    ensures Pow2(m) <= Pow2(n)
  {
    if m < n {
      Pow2Monotone(m, n - 1);
    }
  }

  /** `'0' * n` */
  function Zeros(n: nat): (r: BitString)
    ensures |r| == n
    ensures forall k :: 0 <= k < n ==> !r[k]
  {
    seq(n, _ => false)
  }

  /** The source's test `set(bits) == {'0'}`: the string is non-empty and
      every bit of it is zero. */
  predicate IsZero(b: BitString) {
    |b| > 0 && forall k :: 0 <= k < |b| ==> !b[k]
  }

  /** The unsigned value of a bit string, as `int(bits, 2)` reads it. (The
      source never applies it to an empty string; here that value is 0.) */
  function ValueOf(b: BitString): (r: nat)
    ensures r < Pow2(|b|)
  {
    if |b| == 0 then 0 else 2 * ValueOf(b[..|b| - 1]) + (if b[|b| - 1] then 1 else 0)
  }

  lemma ValueOfSnoc(b: BitString, x: bool)
    ensures ValueOf(b + [x]) == 2 * ValueOf(b) + (if x then 1 else 0)
  {
    assert (b + [x])[..|b|] == b;
  }

  /** A bit string is worth zero exactly when none of its bits is set. */
  lemma {:induction false} ValueZero(b: BitString)
    ensures ValueOf(b) == 0 <==> forall k :: 0 <= k < |b| ==> !b[k]
  {
    if |b| > 0 {
      var p := b[..|b| - 1];
      ValueZero(p);
      assert forall k :: 0 <= k < |p| ==> p[k] == b[k];
    }
  }

  /** Leading zero bits do not change the value. */
  lemma {:induction false} ValueLeadingZeros(n: nat, b: BitString)
    ensures ValueOf(Zeros(n) + b) == ValueOf(b)
  {
    if |b| == 0 {
      assert Zeros(n) + b == Zeros(n);
      ValueZero(Zeros(n));
    } else {
      var p := b[..|b| - 1];
      assert Zeros(n) + b == (Zeros(n) + p) + [b[|b| - 1]];
      ValueOfSnoc(Zeros(n) + p, b[|b| - 1]);
      ValueLeadingZeros(n, p);
      assert b == p + [b[|b| - 1]];
      ValueOfSnoc(p, b[|b| - 1]);
    }
  }

  /** Two bit strings of the same length with the same value are equal. */
  lemma {:induction false} ValueInjective(a: BitString, b: BitString)
    requires |a| == |b| && ValueOf(a) == ValueOf(b)
    ensures a == b
  {
    if |a| > 0 {
      var n := |a| - 1;
      assert a[n] == b[n];
      ValueInjective(a[..n], b[..n]);
      assert a == a[..n] + [a[n]] && b == b[..n] + [b[n]];
    }
  }

  /** The shortest binary numeral of `v`, as `f"{v:b}"` writes it. */
  function Digits(v: nat): (r: BitString)
    ensures |r| >= 1
    ensures ValueOf(r) == v
    decreases v
  {
    if v < 2 then [v == 1]
    else
      var d := Digits(v / 2) + [v % 2 == 1];
      ValueOfSnoc(Digits(v / 2), v % 2 == 1);
      d
  }

  /** `v` fits in `w` bits exactly when its numeral is at most `w` long. */
  lemma {:induction false} DigitsFit(v: nat, w: nat)
    requires 1 <= w && v < Pow2(w)
    ensures |Digits(v)| <= w
    decreases v
  {
    if v >= 2 {
      DigitsFit(v / 2, w - 1);
    }
  }

  /** `f"{v:0{w}b}"`: the numeral of `v`, left-padded with zeros to at least
      `w` bits; it is longer than `w` when `v >= 2^w`. */
  function Binary(v: nat, w: nat): (r: BitString)
    ensures ValueOf(r) == v
    ensures |r| >= w && |r| >= 1
    ensures 1 <= w && v < Pow2(w) ==> |r| == w
  {
    var d := Digits(v);
    if |d| < w then
      ValueLeadingZeros(w - |d|, d);
      Zeros(w - |d|) + d
    else
      if 1 <= w && v < Pow2(w) then DigitsFit(v, w); d else d
  }

  /** Reading a non-empty bit string and writing it back at its own width
      gives the same bits: `f"{int(b, 2):0{len(b)}b}" == b`. */
  lemma BinaryOfValue(b: BitString)
    requires |b| >= 1
    ensures Binary(ValueOf(b), |b|) == b
  {
    ValueInjective(Binary(ValueOf(b), |b|), b);
  }

  /** `f"{byte:08b}"` */
  function ByteBits(x: Byte): (r: BitString)
    ensures |r| == 8 && ValueOf(r) == x
  {
    Binary(x, 8)
  }

  /** The concatenation of a sequence of sequences (`''.join(...)`). */
  function Concat<T>(ss: seq<seq<T>>): (r: seq<T>)
  {
    if |ss| == 0 then [] else Concat(ss[..|ss| - 1]) + ss[|ss| - 1]
  }

  lemma {:induction false} ConcatAppend<T>(ss: seq<seq<T>>, ts: seq<seq<T>>)
    ensures Concat(ss + ts) == Concat(ss) + Concat(ts)
    decreases |ts|
  {
    if |ts| == 0 {
      assert ss + ts == ss;
    } else {
      var n := |ts| - 1;
      assert (ss + ts)[..|ss + ts| - 1] == ss + ts[..n];
      ConcatAppend(ss, ts[..n]);
    }
  }

  lemma ConcatCons<T>(s: seq<T>, ss: seq<seq<T>>)
    ensures Concat([s] + ss) == s + Concat(ss)
  {
    ConcatAppend([s], ss);
    assert [s][..0] == [];
  }

  /** `''.join(f"{byte:08b}" for byte in data)` */
  function BytesToBits(bs: seq<Byte>): (r: BitString)
    ensures |r| == 8 * |bs|
  {
    if |bs| == 0 then [] else BytesToBits(bs[..|bs| - 1]) + ByteBits(bs[|bs| - 1])
  }

  /** A multiple of a positive `n` strictly between `-n` and `n` is zero. */
  lemma SmallMultiple(n: int, k: int)
    requires n > 0 && -n < n * k < n
    ensures k == 0
  {
  }

  lemma DivSmall(x: nat, n: nat)
    requires x < n
    ensures x / n == 0 && x % n == x
  {
    SmallMultiple(n, x / n);
  }

  /** Adding `n` bumps the quotient by one and keeps the remainder. */
  lemma DivStep(m: nat, n: nat)
    requires n > 0
    ensures (m + n) / n == m / n + 1
    ensures (m + n) % n == m % n
  {
    var q, r := m / n, m % n;
    var q', r' := (m + n) / n, (m + n) % n;
    assert n * (q' - q - 1) == r - r' by {
      assert m + n == n * q' + r';
      assert m == n * q + r;
      assert n * (q' - q - 1) == n * q' - n * q - n;
    }
    SmallMultiple(n, q' - q - 1);
  }

  /** `[s[i:i+n] for i in range(0, len(s), n)]`: consecutive pieces of `n`
      bits; every piece but the last is exactly `n` long, the last one may be
      shorter, and together they are `s` again. */
  function Split(s: BitString, n: nat): (r: seq<BitString>)
    requires n > 0
    ensures Concat(r) == s
    ensures forall k :: 0 <= k < |r| ==> 0 < |r[k]| <= n
    ensures forall k :: 0 <= k < |r| - 1 ==> |r[k]| == n
    decreases |s|
  {
    if |s| == 0 then []
    else if |s| <= n then
      ConcatCons(s, []);
      [s]
    else
      var rest := Split(s[n..], n);
      ConcatCons(s[..n], rest);
      assert s[..n] + s[n..] == s;
      [s[..n]] + rest
  }

  /** There are `ceil(|s| / n)` pieces. */
  lemma {:induction false} SplitCount(s: BitString, n: nat)
    requires n > 0
    ensures |Split(s, n)| == (|s| + n - 1) / n
    decreases |s|
  {
    if |s| == 0 {
      DivSmall(n - 1, n);
    } else if |s| <= n {
      assert |Split(s, n)| == 1;
      DivSmall(|s| - 1, n);
      DivStep(|s| - 1, n);
    } else {
      var m := |s| - 1;
      assert |Split(s, n)| == 1 + |Split(s[n..], n)|;
      SplitCount(s[n..], n);
      assert |s[n..]| + n - 1 == m;
      DivStep(m, n);
      assert |s| + n - 1 == m + n;
    }
  }

  /** When `n` divides the length, every piece is exactly `n` long. */
  lemma {:induction false} SplitExact(s: BitString, n: nat)
    requires n > 0 && |s| % n == 0
    ensures forall k :: 0 <= k < |Split(s, n)| ==> |Split(s, n)[k]| == n
    decreases |s|
  {
    if 0 < |s| < n {
      DivSmall(|s|, n);
    } else if |s| > n {
      DivStep(|s| - n, n);
      SplitExact(s[n..], n);
    }
  }
}
