/** Byte-level vocabulary shared by every stage of the reader: bytes,
    big-endian 32-bit words, the slicing rules of the host language the
    reader was written in, and the concatenation of a sequence of chunks. */
module Wire {

  /** One octet of the input stream. */
  type byte = b: int | 0 <= b < 0x100

  /** Number of distinct unsigned 32-bit values. */
  const WORD_LIMIT: int := 0x1_0000_0000

  /** The all-zero word that the format uses as one-word alignment padding. */
  const ZERO_WORD: seq<byte> := [0, 0, 0, 0]

  predicate IsWord(x: int) {
    0 <= x < WORD_LIMIT
  }

  /** The unsigned big-endian word stored in s[off..off + 4]. */
  function WordAt(s: seq<byte>, off: nat): (w: nat)
    requires off + 4 <= |s|
    ensures IsWord(w)
  {
    (s[off] as int) * 0x100_0000 + (s[off + 1] as int) * 0x1_0000 + (s[off + 2] as int) * 0x100 + s[off + 3] as int
  }

  /** The four big-endian bytes of a word. */
  function WordBytes(w: nat): (s: seq<byte>)
    requires IsWord(w)
    ensures |s| == 4
  {
    [w / 0x100_0000, (w / 0x1_0000) % 0x100, (w / 0x100) % 0x100, w % 0x100]
  }

  /** Reading back the bytes of a word gives the word. */
  lemma {:induction false} WordRoundTrip(w: nat)
    requires IsWord(w)
    ensures WordAt(WordBytes(w), 0) == w
  {
    var s := WordBytes(w);
    assert w == (w / 0x100_0000) * 0x100_0000 + ((w / 0x1_0000) % 0x100) * 0x1_0000
              + ((w / 0x100) % 0x100) * 0x100 + w % 0x100;
  }

  /** The four digits, base 256, of a word built from them. */
  lemma {:induction false} WordDigits(a: int, b: int, c: int, d: int)
    requires 0 <= a < 0x100 && 0 <= b < 0x100 && 0 <= c < 0x100 && 0 <= d < 0x100
    ensures var w := a * 0x100_0000 + b * 0x1_0000 + c * 0x100 + d;
      w / 0x100_0000 == a && (w / 0x1_0000) % 0x100 == b && (w / 0x100) % 0x100 == c && w % 0x100 == d
  {
    var w := a * 0x100_0000 + b * 0x1_0000 + c * 0x100 + d;
    assert w / 0x100 == a * 0x1_0000 + b * 0x100 + c;
    assert w / 0x1_0000 == a * 0x100 + b;
  }

  /** Writing out a word read from four bytes gives those bytes back. */
  lemma {:induction false} BytesRoundTrip(s: seq<byte>, off: nat)
    requires off + 4 <= |s|
    ensures WordBytes(WordAt(s, off)) == s[off..off + 4]
  {
    WordDigits(s[off], s[off + 1], s[off + 2], s[off + 3]);
  }

  /** The unsigned big-endian 16-bit value stored in s[off..off + 2]. */
  function HalfAt(s: seq<byte>, off: nat): (h: nat)
    requires off + 2 <= |s|
    ensures h < 0x1_0000
  {
    (s[off] as int) * 0x100 + s[off + 1] as int
  }

  /** The two big-endian bytes of a 16-bit value. */
  function HalfBytes(h: nat): (s: seq<byte>)
    requires h < 0x1_0000
    ensures |s| == 2
  {
    [h / 0x100, h % 0x100]
  }

  /** Reading back the bytes of a 16-bit value gives the value. */
  lemma {:induction false} HalfRoundTrip(h: nat)
    requires h < 0x1_0000
    ensures HalfAt(HalfBytes(h), 0) == h
  {
  }

  /** Writing out a 16-bit value read from two bytes gives those bytes back. */
  lemma {:induction false} HalfBytesRoundTrip(s: seq<byte>, off: nat)
    requires off + 2 <= |s|
    ensures HalfBytes(HalfAt(s, off)) == s[off..off + 2]
  {
    var h := HalfAt(s, off);
    assert h / 0x100 == s[off] as int;
  }

  /** The first n words of s, in order. */
  function Words(s: seq<byte>, n: nat): (ws: seq<nat>)
    requires 4 * n <= |s|
    ensures |ws| == n && AllWords(ws)
  {
    if n == 0 then [] else [WordAt(s, 0)] + Words(s[4..], n - 1)
  }

  /** Word k of the words of s is the word at byte offset 4 * k. */
  lemma {:induction false} WordsAt(s: seq<byte>, n: nat, k: nat)
    requires 4 * n <= |s| && k < n
    ensures Words(s, n)[k] == WordAt(s, 4 * k)
  {
    if k > 0 {
      WordsAt(s[4..], n - 1, k - 1);
    }
  }

  predicate AllWords(ws: seq<nat>) {
    forall k :: 0 <= k < |ws| ==> IsWord(ws[k])
  }

  /** The big-endian byte image of a sequence of words. */
  function Unwords(ws: seq<nat>): (s: seq<byte>)
    requires AllWords(ws)
    ensures |s| == 4 * |ws|
  {
    if ws == [] then [] else WordBytes(ws[0]) + Unwords(ws[1..])
  }

  lemma {:induction false} UnwordsAt(ws: seq<nat>, k: nat)
    requires AllWords(ws) && k < |ws|
    ensures Unwords(ws)[4 * k..4 * k + 4] == WordBytes(ws[k])
  {
    var s := Unwords(ws);
    if k == 0 {
      assert s == WordBytes(ws[0]) + Unwords(ws[1..]);
    } else {
      UnwordsAt(ws[1..], k - 1);
      assert s == WordBytes(ws[0]) + Unwords(ws[1..]);
      assert s[4 * k..4 * k + 4] == Unwords(ws[1..])[4 * (k - 1)..4 * (k - 1) + 4];
    }
  }

  /** Decoding the image of a word sequence gives the words back. */
  lemma {:induction false} WordsOfUnwords(ws: seq<nat>)
    requires AllWords(ws)
    ensures Words(Unwords(ws), |ws|) == ws
    decreases |ws|
  {
    if ws != [] {
      var s := Unwords(ws);
      assert s == WordBytes(ws[0]) + Unwords(ws[1..]);
      assert s[..4] == WordBytes(ws[0]);
      assert s[4..] == Unwords(ws[1..]);
      WordRoundTrip(ws[0]);
      WordsOfUnwords(ws[1..]);
    }
  }

  /** Re-encoding the words read from a buffer gives the buffer's prefix back. */
  lemma {:induction false} UnwordsOfWords(s: seq<byte>, n: nat)
    requires 4 * n <= |s|
    ensures Unwords(Words(s, n)) == s[..4 * n]
  {
    if n > 0 {
      UnwordsOfWords(s[4..], n - 1);
      var ws := Words(s, n);
      assert ws[1..] == Words(s[4..], n - 1);
      BytesRoundTrip(s, 0);
      assert s[..4 * n] == s[..4] + s[4..][..4 * (n - 1)];
    }
  }

  /** Python's normalisation of a slice bound over a sequence of length n:
      a negative index counts from the end, and the result is clamped to 0..n. */
  function Bound(i: int, n: nat): (k: nat)
    ensures k <= n
  {
    if i < 0 then (if n + i < 0 then 0 else n + i)
    else if i > n then n
    else i
  }

  /** `s[i:j]` under Python's rules: bounds are normalised, and an empty
      range gives the empty sequence rather than an error. */
  function Slice<T>(s: seq<T>, i: int, j: int): (r: seq<T>)
    ensures 0 <= i <= j <= |s| ==> r == s[i..j]
    ensures 0 <= i <= |s| <= j ==> r == s[i..]
    ensures 0 <= j <= i ==> r == []
    ensures |s| <= i ==> r == []
    ensures i < 0 && 0 <= |s| + i <= j <= |s| ==> r == s[|s| + i..j]
    ensures i < 0 && |s| + i < 0 && 0 <= j <= |s| ==> r == s[..j]
    ensures j < 0 && 0 <= i <= |s| + j ==> r == s[i..|s| + j]
    ensures |r| <= |s|
  {
    var lo, hi := Bound(i, |s|), Bound(j, |s|);
    if lo < hi then s[lo..hi] else []
  }

  /** `s[i:]` under Python's rules; the result is always a suffix of s. */
  function Drop<T>(s: seq<T>, i: int): (r: seq<T>)
    ensures 0 <= i <= |s| ==> r == s[i..]
    ensures |s| <= i ==> r == []
    ensures i < 0 ==> |r| == if |s| + i < 0 then |s| else -i
    ensures IsSuffix(r, s)
  {
    Slice(s, i, |s|)
  }

  /** a is a (not necessarily proper) suffix of b. */
  ghost predicate IsSuffix<T>(a: seq<T>, b: seq<T>) {
    |a| <= |b| && a == b[|b| - |a|..]
  }

  lemma {:induction false} SuffixTransitive<T>(a: seq<T>, b: seq<T>, c: seq<T>)
    requires IsSuffix(a, b) && IsSuffix(b, c)
    ensures IsSuffix(a, c)
  {
    assert b[|b| - |a|..] == c[|c| - |b|..][|b| - |a|..];
  }

  lemma {:induction false} SuffixAppend<T>(a: seq<T>, b: seq<T>, x: seq<T>)
    requires IsSuffix(a, b)
    ensures IsSuffix(a + x, b + x)
  {
    assert (b + x)[|b + x| - |a + x|..] == b[|b| - |a|..] + x;
  }

  /** A solver hint: it restates a fact Dafny knows about sequences, and
      calling it with explicit arguments hands the solver the one instance
      a proof needs instead of letting it search for one. */
  lemma {:induction false} AppendEmpty<T>(s: seq<T>)
    ensures s + [] == s
  {
  }

  /** A solver hint, as AppendEmpty. */
  lemma {:induction false} ConsAppend<T>(x: T, a: seq<T>, b: seq<T>)
    ensures [x] + (a + b) == ([x] + a) + b
  {
  }

  /** A slice inside a sequence embedded at c is the same slice of it. */
  lemma {:induction false} SliceWithin<T>(s: seq<T>, c: nat, e: seq<T>, i: nat, j: nat)
    requires c + |e| <= |s| && s[c..c + |e|] == e && i <= j <= |e|
    ensures s[c + i..c + j] == e[i..j]
  {
    assert forall k :: c + i <= k < c + j ==> s[k] == s[c..c + |e|][k - c];
  }

  /** Slices of the suffix from c are slices of the whole, shifted by c. */
  lemma {:induction false} SuffixWithin<T>(s: seq<T>, c: nat, e: seq<T>, i: nat, j: nat)
    requires c <= |s| && s[c..] == e && i <= j <= |e|
    ensures s[c + i..c + j] == e[i..j] && s[c + i..] == e[i..]
  {
    assert forall k :: c + i <= k < |s| ==> s[k] == s[c..][k - c];
  }

  /** A suffix made of two parts splits where the first part ends. */
  lemma {:induction false} SplitSuffix<T>(s: seq<T>, c: nat, a: seq<T>, b: seq<T>)
    requires c <= |s| && s[c..] == a + b
    ensures c + |a| <= |s| && s[c..c + |a|] == a && s[c + |a|..] == b
  {
    SuffixWithin(s, c, a + b, 0, |a|);
    SuffixWithin(s, c, a + b, |a|, |a + b|);
    assert (a + b)[..|a|] == a;
    assert (a + b)[|a|..] == b;
  }

  /** A solver hint, as AppendEmpty. */
  lemma {:induction false} AppendAssoc<T>(a: seq<T>, b: seq<T>, c: seq<T>)
    ensures (a + b) + c == a + (b + c)
  {
  }

  /** The bytes of a sequence of chunks laid end to end. */
  function Concat(chunks: seq<seq<byte>>): (r: seq<byte>)
  {
    if chunks == [] then [] else Concat(chunks[..|chunks| - 1]) + chunks[|chunks| - 1]
  }

  lemma {:induction false} ConcatSnoc(chunks: seq<seq<byte>>, c: seq<byte>)
    ensures Concat(chunks + [c]) == Concat(chunks) + c
  {
    assert (chunks + [c])[..|chunks|] == chunks;
  }
}
