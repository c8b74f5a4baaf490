/**
 * The byte-level facts about Rust's native `str` that the soft-ASCII view
 * relies on: a `str` is always well-formed UTF-8 (the encoding of section 4
 * of RFC 3629), it can only be cut at char boundaries, and iterating it
 * yields the decoded `char`s, optionally with their byte offsets. Like the
 * std decoder, everything here walks a byte index over the string.
 */
module Utf8 {

  newtype u8 = x: int | 0 <= x < 0x100

  /** `b'\n'` and `b'\r'`. */
  const LF: u8 := 0x0A
  const CR: u8 := 0x0D

  /** `str::is_ascii`: every byte is a US-ASCII code point (0x00 to 0x7F, control bytes included). */
  predicate IsAscii(s: seq<u8>) {
    forall i :: 0 <= i < |s| ==> s[i] < 0x80
  }

  /** A byte of the form 10xxxxxx, which never starts a char. */
  predicate IsContinuation(b: u8) {
    0x80 <= b < 0xC0
  }

  /** The length of the encoding a lead byte starts; 0 for a byte that cannot start one. */
  function CharWidth(lead: u8): nat {
    if lead < 0x80 then 1
    else if 0xC2 <= lead < 0xE0 then 2
    else if 0xE0 <= lead < 0xF0 then 3
    else if 0xF0 <= lead < 0xF5 then 4
    else 0
  }

  /** The narrowed second-byte ranges of RFC 3629 that exclude overlong forms, surrogates and values above U+10FFFF. */
  predicate SecondByteFits(lead: u8, b: u8) {
    if lead == 0xE0 then b >= 0xA0
    else if lead == 0xED then b < 0xA0
    else if lead == 0xF0 then b >= 0x90
    else if lead == 0xF4 then b < 0x90
    else true
  }

  /** The bytes starting at `i` begin with exactly one well-formed encoded char. */
  predicate WellFormedAt(s: seq<u8>, i: nat) {
    i < |s| && 0 < CharWidth(s[i]) && i + CharWidth(s[i]) <= |s| &&
    (CharWidth(s[i]) >= 2 ==> IsContinuation(s[i + 1]) && SecondByteFits(s[i], s[i + 1])) &&
    (CharWidth(s[i]) >= 3 ==> IsContinuation(s[i + 2])) &&
    (CharWidth(s[i]) == 4 ==> IsContinuation(s[i + 3]))
  }

  /** Position `i` holds a byte that can start a char: it is inside the string and not a continuation byte. */
  predicate LeadAt(s: seq<u8>, i: nat) {
    i < |s| && !IsContinuation(s[i])
  }

  /** The char starting at `i` is well-formed and is followed by the end of the string or by another lead byte. */
  predicate StartsChar(s: seq<u8>, i: nat) {
    WellFormedAt(s, i) && (i + CharWidth(s[i]) == |s| || !IsContinuation(s[i + CharWidth(s[i])]))
  }

  /**
   * Well-formed UTF-8, stated byte by byte: the string does not open with a
   * continuation byte, and every lead byte starts a well-formed char after
   * which the string ends or another char starts. `WalkValid` is the same
   * language stated as a walk from char to char (`WalkIsValidUtf8`).
   */
  predicate ValidUtf8(s: seq<u8>) {
    (0 < |s| ==> LeadAt(s, 0)) && forall i :: 0 <= i < |s| && LeadAt(s, i) ==> StartsChar(s, i)
  }

  /** The content of a Rust `str` (and of a `String`). */
  type Str = s: seq<u8> | ValidUtf8(s) witness []

  /**
   * `str::is_char_boundary`: the start or the end of the string, or an index
   * whose byte is not a continuation byte; false past the end.
   */
  predicate IsCharBoundary(s: seq<u8>, i: nat) {
    i == 0 || i == |s| || LeadAt(s, i)
  }

  /**
   * The validation walk: from `a` on, the bytes decode char after char, each
   * well-formed, until the walk lands exactly on the end.
   */
  predicate WalkValid(s: seq<u8>, a: nat)
    requires a <= |s|
    decreases |s| - a
  {
    a == |s| || (WellFormedAt(s, a) && WalkValid(s, a + CharWidth(s[a])))
  }

  /** `ValidUtf8` restricted to the bytes from a lead position `a` on. */
  ghost predicate ValidFrom(s: seq<u8>, a: nat) {
    a <= |s| && (a < |s| ==> LeadAt(s, a)) && forall i :: a <= i && LeadAt(s, i) ==> StartsChar(s, i)
  }

  lemma {:induction false} WalkIsValidFrom(s: seq<u8>, a: nat)
    requires a <= |s|
    ensures WalkValid(s, a) <==> ValidFrom(s, a)
    decreases |s| - a
  {
    if a < |s| && WellFormedAt(s, a) {
      var w := CharWidth(s[a]);
      WalkIsValidFrom(s, a + w);
      if ValidFrom(s, a + w) {
        forall i | a <= i && LeadAt(s, i) ensures StartsChar(s, i) {
          if i < a + w {
            assert i == a;
          }
        }
      }
      if ValidFrom(s, a) {
        assert StartsChar(s, a);
      }
    }
  }

  /** The byte-by-byte definition and the walk accept the same strings. */
  lemma WalkIsValidUtf8(s: seq<u8>)
    ensures ValidUtf8(s) <==> WalkValid(s, 0)
  {
    WalkIsValidFrom(s, 0);
  }

  // ---------------------------------------------------------------------------
  // Cutting and joining valid UTF-8

  /** A char that starts before a boundary `b` ends at or before it. */
  lemma CharEndsBy(s: seq<u8>, i: nat, b: nat)
    requires WellFormedAt(s, i) && i < b <= |s| && IsCharBoundary(s, b)
    ensures i + CharWidth(s[i]) <= b
  {
  }

  /** Bytes copied from a well-formed char form the same well-formed char. */
  lemma CharMoves(s: seq<u8>, i: nat, t: seq<u8>, j: nat)
    requires WellFormedAt(s, i) && j + CharWidth(s[i]) <= |t| && t[j] == s[i]
    requires CharWidth(s[i]) >= 2 ==> t[j + 1] == s[i + 1]
    requires CharWidth(s[i]) >= 3 ==> t[j + 2] == s[i + 2]
    requires CharWidth(s[i]) == 4 ==> t[j + 3] == s[i + 3]
    ensures WellFormedAt(t, j) && CharWidth(t[j]) == CharWidth(s[i])
  {
  }

  /** The bytes between two char boundaries are valid UTF-8: what makes `&s[a..b]` a `str` again. */
  lemma SliceIsValid(s: seq<u8>, a: nat, b: nat)
    requires ValidUtf8(s) && a <= b && IsCharBoundary(s, a) && IsCharBoundary(s, b)
    ensures ValidUtf8(s[a..b])
  {
    var t := s[a..b];
    forall i | 0 <= i < |t| && LeadAt(t, i) ensures StartsChar(t, i) {
      assert t[i] == s[a + i] && LeadAt(s, a + i);
      var w := CharWidth(s[a + i]);
      CharEndsBy(s, a + i, b);
      CharMoves(s, a + i, t, i);
      if a + i + w < b {
        assert t[i + w] == s[a + i + w];
      }
    }
  }

  /** Everything from a char boundary on is valid UTF-8. */
  lemma BoundarySuffix(s: seq<u8>, i: nat)
    requires ValidUtf8(s) && IsCharBoundary(s, i)
    ensures ValidUtf8(s[i..])
  {
    SliceIsValid(s, i, |s|);
    assert s[i..|s|] == s[i..];
  }

  /** Everything up to a char boundary is valid UTF-8. */
  lemma BoundaryPrefix(s: seq<u8>, i: nat)
    requires ValidUtf8(s) && IsCharBoundary(s, i)
    ensures ValidUtf8(s[..i])
  {
    SliceIsValid(s, 0, i);
    assert s[0..i] == s[..i];
  }

  /** In valid UTF-8 the byte after an ASCII byte starts a char. */
  lemma AfterAsciiIsBoundary(s: seq<u8>, i: nat)
    requires ValidUtf8(s) && 0 < i <= |s| && s[i - 1] < 0x80
    ensures IsCharBoundary(s, i)
  {
    assert StartsChar(s, i - 1);
  }

  /** An ASCII byte is a char of its own, so it is always a boundary. */
  lemma AtAsciiIsBoundary(s: seq<u8>, i: nat)
    requires i < |s| && s[i] < 0x80
    ensures IsCharBoundary(s, i)
  {
  }

  /** Joining two `str`s gives a `str`. */
  lemma ConcatIsValid(a: seq<u8>, b: seq<u8>)
    requires ValidUtf8(a) && ValidUtf8(b)
    ensures ValidUtf8(a + b)
  {
    var ab := a + b;
    forall i | 0 <= i < |ab| && LeadAt(ab, i) ensures StartsChar(ab, i) {
      if i < |a| {
        assert ab[i] == a[i] && LeadAt(a, i);
        var w := CharWidth(a[i]);
        CharMoves(a, i, ab, i);
        if i + w == |a| && 0 < |b| {
          assert ab[i + w] == b[0];
        } else if i + w < |a| {
          assert ab[i + w] == a[i + w];
        }
      } else {
        var j := i - |a|;
        assert ab[i] == b[j] && LeadAt(b, j);
        var w := CharWidth(b[j]);
        CharMoves(b, j, ab, i);
        if j + w < |b| {
          assert ab[i + w] == b[j + w];
        }
      }
    }
  }

  /** Every ASCII byte string is valid UTF-8. */
  lemma AsciiIsValid(s: seq<u8>)
    requires IsAscii(s)
    ensures ValidUtf8(s)
  {
    forall i | 0 <= i < |s| && LeadAt(s, i) ensures StartsChar(s, i) {
      if i + 1 < |s| {
        assert s[i + 1] < 0x80;
      }
    }
  }

  /** The encoding of a single char is valid UTF-8. */
  lemma OneCharIsValid(s: seq<u8>)
    requires WellFormedAt(s, 0) && CharWidth(s[0]) == |s|
    ensures ValidUtf8(s)
  {
    assert forall i :: 0 < i < |s| ==> IsContinuation(s[i]);
    assert StartsChar(s, 0);
  }

  /** `t` differs from `s` at most in bytes that are ASCII in both. */
  ghost predicate ChangesOnlyAscii(s: seq<u8>, t: seq<u8>) {
    |s| == |t| && forall i :: 0 <= i < |s| ==> (s[i] < 0x80 && t[i] < 0x80) || s[i] == t[i]
  }

  /** Rewriting ASCII bytes into ASCII bytes keeps a `str` valid (ASCII case mapping relies on this). */
  lemma AsciiRewriteIsValid(s: seq<u8>, t: seq<u8>)
    requires ValidUtf8(s) && ChangesOnlyAscii(s, t)
    ensures ValidUtf8(t)
  {
    if 0 < |t| {
      assert t[0] < 0x80 || t[0] == s[0];
    }
    forall i | 0 <= i < |t| && LeadAt(t, i) ensures StartsChar(t, i) {
      assert t[i] < 0x80 || t[i] == s[i];
      assert LeadAt(s, i);
      var w := CharWidth(s[i]);
      if s[i] < 0x80 {
        assert t[i] < 0x80;
      } else {
        assert w >= 2 ==> IsContinuation(s[i + 1]);
        assert w >= 3 ==> IsContinuation(s[i + 2]);
        assert w == 4 ==> IsContinuation(s[i + 3]);
        CharMoves(s, i, t, i);
      }
      if i + w < |t| {
        assert t[i + w] < 0x80 || t[i + w] == s[i + w];
      }
    }
  }

  // ---------------------------------------------------------------------------
  // Decoding: what `str::chars` and `str::char_indices` yield

  /** The Unicode scalar value of the char whose encoding starts at `i`. */
  function CodePointAt(s: seq<u8>, i: nat): (cp: int)
    requires WellFormedAt(s, i)
    ensures 0 <= cp < 0xD800 || 0xE000 <= cp < 0x11_0000
    ensures cp < 0x80 <==> CharWidth(s[i]) == 1
  {
    var w := CharWidth(s[i]);
    if w == 1 then s[i] as int
    else if w == 2 then (s[i] as int - 0xC0) * 0x40 + (s[i + 1] as int - 0x80)
    else if w == 3 then (s[i] as int - 0xE0) * 0x1000 + (s[i + 1] as int - 0x80) * 0x40 + (s[i + 2] as int - 0x80)
    else (s[i] as int - 0xF0) * 0x4_0000 + (s[i + 1] as int - 0x80) * 0x1000 + (s[i + 2] as int - 0x80) * 0x40 + (s[i + 3] as int - 0x80)
  }

  /** The char whose encoding starts at the lead byte `i` of a `str`. */
  function DecodeAt(s: seq<u8>, i: nat): (c: char)
    requires ValidUtf8(s) && LeadAt(s, i)
    ensures IsAsciiChar(c) <==> s[i] < 0x80
    ensures s[i] < 0x80 ==> c == s[i] as int as char
  {
    assert StartsChar(s, i);
    CodePointAt(s, i) as char
  }

  /** `char::is_ascii`. */
  predicate IsAsciiChar(c: char) {
    c as int < 0x80
  }

  /**
   * The offsets of the chars from the boundary `i` on, front to back: the
   * positions the std decoder stops at, each one char width after the last.
   */
  function OffsetsFrom(s: seq<u8>, i: nat): (r: seq<nat>)
    requires ValidUtf8(s) && i <= |s| && IsCharBoundary(s, i)
    ensures forall k :: 0 <= k < |r| ==> i <= r[k] < |s| && !IsContinuation(s[r[k]])
    decreases |s| - i
  {
    if i == |s| then []
    else [i] + OffsetsFrom(s, i + CharWidth(s[i]))
  }

  /** The items of `str::chars` for the chars from byte `i` on, front to back. */
  function CharsFrom(s: seq<u8>, i: nat): (r: seq<char>)
    requires ValidUtf8(s) && i <= |s| && IsCharBoundary(s, i)
    ensures |r| == |OffsetsFrom(s, i)|
  {
    var offsets := OffsetsFrom(s, i);
    seq(|offsets|, k requires 0 <= k < |offsets| => DecodeAt(s, offsets[k]))
  }

  /** The items of `str::chars`, front to back. */
  function Chars(s: Str): seq<char> {
    CharsFrom(s, 0)
  }

  /**
   * The items of `str::char_indices` for the chars from byte `i` on, front to
   * back: the chars `chars` yields, each paired with its byte offset.
   */
  function CharIndicesFrom(s: seq<u8>, i: nat): (r: seq<(nat, char)>)
    requires ValidUtf8(s) && i <= |s| && IsCharBoundary(s, i)
    ensures |r| == |CharsFrom(s, i)|
    ensures forall k :: 0 <= k < |r| ==> r[k].1 == CharsFrom(s, i)[k] && i <= r[k].0 < |s|
  {
    var offsets := OffsetsFrom(s, i);
    seq(|offsets|, k requires 0 <= k < |offsets| => (offsets[k], DecodeAt(s, offsets[k])))
  }

  /** The items of `str::char_indices`, front to back. */
  function CharIndices(s: Str): seq<(nat, char)> {
    CharIndicesFrom(s, 0)
  }

  /** Every char boundary from `i` on, short of the end, is one of the offsets: the `k`-th. */
  lemma {:induction false} BoundaryIsInOffsets(s: seq<u8>, i: nat, j: nat) returns (k: nat)
    requires ValidUtf8(s) && i <= j < |s| && IsCharBoundary(s, i) && IsCharBoundary(s, j)
    ensures k < |OffsetsFrom(s, i)| && OffsetsFrom(s, i)[k] == j
    decreases |s| - i
  {
    assert LeadAt(s, i) && StartsChar(s, i);
    var w := CharWidth(s[i]);
    var offsets, rest := OffsetsFrom(s, i), OffsetsFrom(s, i + w);
    assert offsets == [i] + rest;
    if i == j {
      k := 0;
    } else {
      CharEndsBy(s, i, j);
      var k' := BoundaryIsInOffsets(s, i + w, j);
      k := k' + 1;
      assert offsets[k] == rest[k'];
    }
  }

  /** Inside a string, the char boundaries are exactly the offsets `char_indices` yields. */
  lemma BoundaryIsOffset(s: Str, j: nat)
    requires j < |s|
    ensures IsCharBoundary(s, j) <==> exists k :: 0 <= k < |CharIndices(s)| && CharIndices(s)[k].0 == j
  {
    var offsets, ci := OffsetsFrom(s, 0), CharIndices(s);
    if IsCharBoundary(s, j) {
      var k := BoundaryIsInOffsets(s, 0, j);
      assert ci[k].0 == j;
    } else {
      forall k | 0 <= k < |ci| ensures ci[k].0 != j {
        assert ci[k].0 == offsets[k] && LeadAt(s, offsets[k]);
      }
    }
  }

  /** Over ASCII bytes every byte is a char of its own, so the offsets are `i`, `i + 1`, ... */
  lemma {:induction false} OffsetsOfAscii(s: seq<u8>, i: nat)
    requires ValidUtf8(s) && i <= |s| && IsCharBoundary(s, i)
    requires forall p :: i <= p < |s| ==> s[p] < 0x80
    ensures |OffsetsFrom(s, i)| == |s| - i && forall k :: 0 <= k < |s| - i ==> OffsetsFrom(s, i)[k] == i + k
    decreases |s| - i
  {
    if i < |s| {
      var offsets, rest := OffsetsFrom(s, i), OffsetsFrom(s, i + 1);
      assert offsets == [i] + rest;
      OffsetsOfAscii(s, i + 1);
      forall k | 0 < k < |s| - i ensures offsets[k] == i + k {
        assert offsets[k] == rest[k - 1];
      }
    }
  }

  /** When every char from `i` on starts with an ASCII byte, every byte from `i` on is ASCII. */
  lemma {:induction false} AsciiLeadsCoverAll(s: seq<u8>, i: nat)
    requires ValidUtf8(s) && i <= |s| && IsCharBoundary(s, i)
    requires forall k :: 0 <= k < |OffsetsFrom(s, i)| ==> s[OffsetsFrom(s, i)[k]] < 0x80
    ensures forall p :: i <= p < |s| ==> s[p] < 0x80
    decreases |s| - i
  {
    if i < |s| {
      var offsets := OffsetsFrom(s, i);
      assert offsets[0] == i && s[i] < 0x80;
      assert LeadAt(s, i) && StartsChar(s, i);
      var rest := OffsetsFrom(s, i + 1);
      assert offsets == [i] + rest;
      forall k | 0 <= k < |rest| ensures s[rest[k]] < 0x80 {
        assert rest[k] == offsets[k + 1];
      }
      AsciiLeadsCoverAll(s, i + 1);
    }
  }

  /**
   * The soft constraint seen through `chars`: a `str` is ASCII exactly when
   * every char it yields is ASCII; then the chars are its bytes one by one.
   */
  lemma CharsOfAscii(s: Str)
    ensures IsAscii(s) <==> forall k :: 0 <= k < |Chars(s)| ==> IsAsciiChar(Chars(s)[k])
    ensures IsAscii(s) ==> |Chars(s)| == |s| && forall k :: 0 <= k < |s| ==> Chars(s)[k] == s[k] as int as char
  {
    var offsets, cs := OffsetsFrom(s, 0), Chars(s);
    forall k | 0 <= k < |cs| ensures IsAsciiChar(cs[k]) <==> s[offsets[k]] < 0x80 {
      assert cs[k] == DecodeAt(s, offsets[k]);
    }
    if IsAscii(s) {
      OffsetsOfAscii(s, 0);
      forall k | 0 <= k < |s| ensures cs[k] == s[k] as int as char {
        assert offsets[k] == 0 + k;
        assert cs[k] == DecodeAt(s, k);
      }
    } else if forall k :: 0 <= k < |cs| ==> IsAsciiChar(cs[k]) {
      AsciiLeadsCoverAll(s, 0);
    }
  }

}
