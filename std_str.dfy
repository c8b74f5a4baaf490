/**
 * The operations of Rust's native `str` that the soft-ASCII view forwards to
 * and re-wraps: trimming, case conversion, repetition, and the items of the
 * `lines` and `split_whitespace` iterators. Whitespace and case are taken in
 * their ASCII meaning. The scans walk an index over the bytes, as the std
 * implementations do.
 */
module StdStr {
  import opened Utf8

  /** `char::is_whitespace` on ASCII: tab, line feed, vertical tab, form feed, carriage return and space. */
  predicate IsWhitespace(b: u8) {
    b == 0x20 || 0x09 <= b <= 0x0D
  }

  /** The first index at or after `i` whose byte is not whitespace, or the end. */
  function SkipWhitespace(s: seq<u8>, i: nat): (j: nat)
    requires i <= |s|
    ensures i <= j <= |s|
    ensures forall p :: i <= p < j ==> IsWhitespace(s[p])
    ensures j < |s| ==> !IsWhitespace(s[j])
    decreases |s| - i
  {
    if i == |s| || !IsWhitespace(s[i]) then i else SkipWhitespace(s, i + 1)
  }

  /** The first index at or after `i` whose byte is whitespace, or the end. */
  function WordEnd(s: seq<u8>, i: nat): (j: nat)
    requires i <= |s|
    ensures i <= j <= |s|
    ensures forall p :: i <= p < j ==> !IsWhitespace(s[p])
    ensures j < |s| ==> IsWhitespace(s[j])
    decreases |s| - i
  {
    if i == |s| || IsWhitespace(s[i]) then i else WordEnd(s, i + 1)
  }

  /** The first index at or after `i` whose byte is a line feed, or the end. */
  function LineEnd(s: seq<u8>, i: nat): (j: nat)
    requires i <= |s|
    ensures i <= j <= |s|
    ensures forall p :: i <= p < j ==> s[p] != LF
    ensures j < |s| ==> s[j] == LF
    decreases |s| - i
  {
    if i == |s| || s[i] == LF then i else LineEnd(s, i + 1)
  }

  /** Where the run of whitespace that ends at `j` starts. */
  function TrailingStart(s: seq<u8>, j: nat): (i: nat)
    requires j <= |s|
    ensures i <= j
    ensures forall p :: i <= p < j ==> IsWhitespace(s[p])
    ensures 0 < i ==> !IsWhitespace(s[i - 1])
    decreases j
  {
    if j == 0 || !IsWhitespace(s[j - 1]) then j else TrailingStart(s, j - 1)
  }

  /** Whitespace from `i` up to `a` and none at `a` means the run from `i` ends at `a`. */
  lemma SkipWhitespaceIs(s: seq<u8>, i: nat, a: nat)
    requires i <= a <= |s|
    requires forall p :: i <= p < a ==> IsWhitespace(s[p])
    requires a < |s| ==> !IsWhitespace(s[a])
    ensures SkipWhitespace(s, i) == a
  {
    var n := SkipWhitespace(s, i);
    assert n < |s| ==> !IsWhitespace(s[n]);
    assert a < |s| ==> !IsWhitespace(s[a]);
  }

  /** `t` is a contiguous run of the bytes of `s`. */
  ghost predicate IsSliceOf(t: seq<u8>, s: seq<u8>) {
    exists a, b :: 0 <= a <= b <= |s| && t == s[a..b]
  }

  /** The unchecked re-wrap is sound for every slice: a run of ASCII bytes is ASCII. */
  lemma SliceOfAscii(t: seq<u8>, s: seq<u8>)
    requires IsSliceOf(t, s) && IsAscii(s)
    ensures IsAscii(t)
  {
    var a, b :| 0 <= a <= b <= |s| && t == s[a..b];
    forall i | 0 <= i < |t| ensures t[i] < 0x80 {
      assert t[i] == s[a + i];
    }
  }

  /** Cutting `c..d` out of the cut `a..b` is cutting `a + c..a + d` out of the whole. */
  lemma CutOfCut(s: seq<u8>, a: nat, b: nat, c: nat, d: nat)
    requires a <= b <= |s| && c <= d <= b - a
    ensures s[a..b][c..d] == s[a + c..a + d]
  {
    var t := s[a..b];
    forall i | 0 <= i < d - c ensures t[c..d][i] == s[a + c..a + d][i] {
      assert t[c + i] == s[a + c + i];
    }
  }

  /** A slice of a slice is a slice. */
  lemma SliceOfSlice(t: seq<u8>, u: seq<u8>, s: seq<u8>)
    requires IsSliceOf(t, u) && IsSliceOf(u, s)
    ensures IsSliceOf(t, s)
  {
    var a, b :| 0 <= a <= b <= |u| && t == u[a..b];
    var c, d :| 0 <= c <= d <= |s| && u == s[c..d];
    forall i | 0 <= i < |t| ensures t[i] == s[c + a + i] {
      assert t[i] == u[a + i];
    }
    assert t == s[c + a..c + b];
  }

  // ---------------------------------------------------------------------------
  // trim_start, trim_end, trim

  /** A run of whitespace that starts at a char boundary ends at one (whitespace is ASCII). */
  lemma SkipWhitespaceKeepsBoundary(s: Str, i: nat)
    requires i <= |s| && IsCharBoundary(s, i)
    ensures IsCharBoundary(s, SkipWhitespace(s, i))
  {
    var k := SkipWhitespace(s, i);
    if k > i {
      AfterAsciiIsBoundary(s, k);
    }
  }

  lemma TrailingStartIsBoundary(s: Str)
    ensures IsCharBoundary(s, TrailingStart(s, |s|))
  {
    var k := TrailingStart(s, |s|);
    if k < |s| {
      AtAsciiIsBoundary(s, k);
    }
  }

  /** `str::trim_start`: drops the leading whitespace and keeps the rest of the bytes as they are. */
  function TrimStart(s: Str): (r: Str)
    ensures |r| <= |s| && r == s[|s| - |r|..]
    ensures forall i :: 0 <= i < |s| - |r| ==> IsWhitespace(s[i])
    ensures |r| > 0 ==> !IsWhitespace(r[0])
  {
    var k := SkipWhitespace(s, 0);
    SkipWhitespaceKeepsBoundary(s, 0);
    BoundarySuffix(s, k);
    s[k..]
  }

  /** `str::trim_end`: drops the trailing whitespace and keeps the rest of the bytes as they are. */
  function TrimEnd(s: Str): (r: Str)
    ensures |r| <= |s| && r == s[..|r|]
    ensures forall i :: |r| <= i < |s| ==> IsWhitespace(s[i])
    ensures |r| > 0 ==> !IsWhitespace(r[|r| - 1])
  {
    var k := TrailingStart(s, |s|);
    TrailingStartIsBoundary(s);
    BoundaryPrefix(s, k);
    s[..k]
  }

  /**
   * `str::trim`: drops the whitespace at both ends. What is kept starts where
   * the leading whitespace ends, and everything after it is whitespace.
   */
  function Trim(s: Str): (r: Str)
    ensures var a := SkipWhitespace(s, 0);
            a + |r| <= |s| && r == s[a..a + |r|] && forall i :: a + |r| <= i < |s| ==> IsWhitespace(s[i])
    ensures |r| > 0 ==> !IsWhitespace(r[0]) && !IsWhitespace(r[|r| - 1])
  {
    var t := TrimStart(s);
    var r := TrimEnd(t);
    TrimSlices(s, t, r);
    r
  }

  /** Cutting leading whitespace off `s`, then trailing whitespace off the rest, leaves one slice of `s`. */
  lemma TrimSlices(s: seq<u8>, t: seq<u8>, r: seq<u8>)
    requires |t| <= |s| && t == s[|s| - |t|..] && forall i :: 0 <= i < |s| - |t| ==> IsWhitespace(s[i])
    requires |t| > 0 ==> !IsWhitespace(t[0])
    requires |r| <= |t| && r == t[..|r|] && forall i :: |r| <= i < |t| ==> IsWhitespace(t[i])
    ensures var a := SkipWhitespace(s, 0);
            a == |s| - |t| && a + |r| <= |s| && r == s[a..a + |r|] && forall i :: a + |r| <= i < |s| ==> IsWhitespace(s[i])
  {
    var a := |s| - |t|;
    assert a < |s| ==> s[a] == t[0];
    SkipWhitespaceIs(s, 0, a);
    TrailingCut(s, a, t, r);
  }

  /** What `trim_end` cut off the suffix `t` of `s` is the whitespace at the end of `s`. */
  lemma TrailingCut(s: seq<u8>, a: nat, t: seq<u8>, r: seq<u8>)
    requires a <= |s| && t == s[a..]
    requires |r| <= |t| && r == t[..|r|] && forall i :: |r| <= i < |t| ==> IsWhitespace(t[i])
    ensures a + |r| <= |s| && r == s[a..a + |r|] && forall i :: a + |r| <= i < |s| ==> IsWhitespace(s[i])
  {
    forall i | a + |r| <= i < |s| ensures IsWhitespace(s[i]) {
      assert s[i] == t[i - a];
    }
  }

  /** What every trim returns is a slice of its input. */
  lemma TrimsAreSlices(s: Str)
    ensures IsSliceOf(TrimStart(s), s) && IsSliceOf(TrimEnd(s), s) && IsSliceOf(Trim(s), s)
  {
    var r := Trim(s);
    var a := SkipWhitespace(s, 0);
    assert r == s[a..a + |r|];
    assert TrimStart(s) == s[|s| - |TrimStart(s)|..|s|];
    assert TrimEnd(s) == s[0..|TrimEnd(s)|];
  }

  /** A string that does not start with whitespace is its own `trim_start`. */
  lemma TrimStartKeeps(t: Str)
    requires |t| == 0 || !IsWhitespace(t[0])
    ensures TrimStart(t) == t
  {
    assert SkipWhitespace(t, 0) == 0;
    assert t[0..] == t;
  }

  /** A string that does not end with whitespace is its own `trim_end`. */
  lemma TrimEndKeeps(t: Str)
    requires |t| == 0 || !IsWhitespace(t[|t| - 1])
    ensures TrimEnd(t) == t
  {
    assert TrailingStart(t, |t|) == |t|;
    assert t[..|t|] == t;
  }

  /** Trimming twice trims nothing more. */
  lemma TrimStartIsIdempotent(s: Str)
    ensures TrimStart(TrimStart(s)) == TrimStart(s)
  {
    TrimStartKeeps(TrimStart(s));
  }

  lemma TrimEndIsIdempotent(s: Str)
    ensures TrimEnd(TrimEnd(s)) == TrimEnd(s)
  {
    TrimEndKeeps(TrimEnd(s));
  }

  lemma TrimIsIdempotent(s: Str)
    ensures Trim(Trim(s)) == Trim(s)
  {
    TrimKeeps(Trim(s));
  }

  /** A string with no whitespace at either end is its own `trim`. */
  lemma TrimKeeps(r: Str)
    requires |r| == 0 || (!IsWhitespace(r[0]) && !IsWhitespace(r[|r| - 1]))
    ensures Trim(r) == r
  {
    TrimStartKeeps(r);
    TrimEndKeeps(r);
  }

  // ---------------------------------------------------------------------------
  // to_lowercase, to_uppercase

  predicate IsAsciiUpper(b: u8) {
    0x41 <= b <= 0x5A
  }

  predicate IsAsciiLower(b: u8) {
    0x61 <= b <= 0x7A
  }

  function LowerByte(b: u8): u8 {
    if IsAsciiUpper(b) then b + 0x20 else b
  }

  function UpperByte(b: u8): u8 {
    if IsAsciiLower(b) then b - 0x20 else b
  }

  /** `str::to_lowercase` on the ASCII letters: every upper-case letter becomes lower case, nothing else changes. */
  function ToLowercase(s: Str): (r: Str)
    ensures |r| == |s|
    ensures forall i :: 0 <= i < |r| ==> !IsAsciiUpper(r[i])
    ensures forall i :: 0 <= i < |s| ==> r[i] == s[i] || (IsAsciiUpper(s[i]) && r[i] == s[i] + 0x20)
    ensures IsAscii(r) <==> IsAscii(s)
  {
    var r := seq(|s|, i requires 0 <= i < |s| => LowerByte(s[i]));
    AsciiRewriteIsValid(s, r);
    r
  }

  /** `str::to_uppercase` on the ASCII letters: every lower-case letter becomes upper case, nothing else changes. */
  function ToUppercase(s: Str): (r: Str)
    ensures |r| == |s|
    ensures forall i :: 0 <= i < |r| ==> !IsAsciiLower(r[i])
    ensures forall i :: 0 <= i < |s| ==> r[i] == s[i] || (IsAsciiLower(s[i]) && r[i] == s[i] - 0x20)
    ensures IsAscii(r) <==> IsAscii(s)
  {
    var r := seq(|s|, i requires 0 <= i < |s| => UpperByte(s[i]));
    AsciiRewriteIsValid(s, r);
    r
  }

  /** Case conversion is idempotent and forgets the case it started from. */
  lemma CaseConversionLaws(s: Str)
    ensures ToLowercase(ToLowercase(s)) == ToLowercase(s)
    ensures ToUppercase(ToUppercase(s)) == ToUppercase(s)
    ensures ToLowercase(ToUppercase(s)) == ToLowercase(s)
    ensures ToUppercase(ToLowercase(s)) == ToUppercase(s)
  {
    var lo, up := ToLowercase(s), ToUppercase(s);
    assert ToLowercase(lo) == lo by {
      forall i | 0 <= i < |s| ensures ToLowercase(lo)[i] == lo[i] { }
    }
    assert ToUppercase(up) == up by {
      forall i | 0 <= i < |s| ensures ToUppercase(up)[i] == up[i] { }
    }
    assert ToLowercase(up) == lo by {
      forall i | 0 <= i < |s| ensures ToLowercase(up)[i] == lo[i] { }
    }
    assert ToUppercase(lo) == up by {
      forall i | 0 <= i < |s| ensures ToUppercase(lo)[i] == up[i] { }
    }
  }

  // ---------------------------------------------------------------------------
  // repeat

  /** `str::repeat`: `n` copies of `s`, one after the other. */
  function Repeat(s: Str, n: nat): (r: Str)
    ensures |r| == n * |s|
    decreases n
  {
    if n == 0 then []
    else
      var rest := Repeat(s, n - 1);
      ConcatIsValid(s, rest);
      assert |s| + (n - 1) * |s| == n * |s|;
      s + rest
  }

  /** Repetition adds copies: `repeat(m + n)` is `repeat(m)` followed by `repeat(n)`. */
  lemma {:induction false} RepeatAdds(s: Str, m: nat, n: nat)
    ensures Repeat(s, m + n) == Repeat(s, m) + Repeat(s, n)
    decreases m
  {
    if m > 0 {
      RepeatAdds(s, m - 1, n);
      assert Repeat(s, m + n) == s + Repeat(s, m - 1 + n);
    }
  }

  /** Every one of the `n` blocks of `repeat(n)` is a copy of `s`. */
  lemma RepeatBlock(s: Str, n: nat, k: nat)
    requires k < n
    ensures Repeat(s, n) == Repeat(s, k) + s + Repeat(s, n - k - 1)
  {
    RepeatAdds(s, k, n - k);
    assert Repeat(s, n - k) == s + Repeat(s, n - k - 1);
  }

  /** Repeating ASCII content gives ASCII content. */
  lemma {:induction false} RepeatOfAscii(s: Str, n: nat)
    requires IsAscii(s)
    ensures IsAscii(Repeat(s, n))
    decreases n
  {
    if n > 0 {
      RepeatOfAscii(s, n - 1);
      assert Repeat(s, n) == s + Repeat(s, n - 1);
    }
  }


  // ---------------------------------------------------------------------------
  // lines

  lemma LineCutsAreBoundaries(s: Str, n: nat)
    requires n < |s| && s[n] == LF
    ensures IsCharBoundary(s, n) && IsCharBoundary(s, n + 1)
    ensures n > 0 && s[n - 1] == CR ==> IsCharBoundary(s, n - 1)
  {
    AtAsciiIsBoundary(s, n);
    if n > 0 && s[n - 1] == CR {
      AtAsciiIsBoundary(s, n - 1);
    }
    AfterAsciiIsBoundary(s, n + 1);
  }

  /**
   * The items of `str::lines` from byte `i` on: the text between line feeds,
   * with one carriage return right before a line feed dropped as part of the
   * line ending; a final line feed does not start an empty last line.
   */
  function LinesFrom(s: seq<u8>, i: nat): seq<seq<u8>>
    requires i <= |s|
    decreases |s| - i
  {
    if i == |s| then []
    else
      var n := LineEnd(s, i);
      if n == |s| then [s[i..]]
      else
        var cut := if n > i && s[n - 1] == CR then n - 1 else n;
        [s[i..cut]] + LinesFrom(s, n + 1)
  }

  /** The items of `str::lines`. */
  function Lines(s: seq<u8>): seq<seq<u8>> {
    LinesFrom(s, 0)
  }

  /** Every item is valid UTF-8, so each can be re-wrapped as a `str`. */
  ghost predicate AllStrs(ls: seq<seq<u8>>) {
    forall k :: 0 <= k < |ls| ==> ValidUtf8(ls[k])
  }

  lemma AllStrsCons(l: seq<u8>, ls: seq<seq<u8>>)
    requires ValidUtf8(l) && AllStrs(ls)
    ensures AllStrs([l] + ls)
  {
    var all := [l] + ls;
    forall k | 0 < k < |all| ensures ValidUtf8(all[k]) {
      assert all[k] == ls[k - 1];
    }
  }

  lemma {:induction false} LinesFromAreStrs(s: Str, i: nat)
    requires i <= |s| && IsCharBoundary(s, i)
    ensures AllStrs(LinesFrom(s, i))
    decreases |s| - i
  {
    if i < |s| {
      var n := LineEnd(s, i);
      if n == |s| {
        assert ValidUtf8(s[i..]) by {
          BoundarySuffix(s, i);
        }
        assert LinesFrom(s, i) == [s[i..]];
      } else {
        var cut := if n > i && s[n - 1] == CR then n - 1 else n;
        assert ValidUtf8(s[i..cut]) by {
          LineCutsAreBoundaries(s, n);
          SliceIsValid(s, i, cut);
        }
        assert IsCharBoundary(s, n + 1) by {
          LineCutsAreBoundaries(s, n);
        }
        var line, rest := s[i..cut], LinesFrom(s, n + 1);
        assert LinesFrom(s, i) == [line] + rest;
        LinesFromAreStrs(s, n + 1);
        AllStrsCons(line, rest);
      }
    }
  }

  /** Every line of a `str` is a `str`: `lines` cuts only at char boundaries. */
  lemma LinesAreStrs(s: Str)
    ensures AllStrs(Lines(s))
  {
    LinesFromAreStrs(s, 0);
  }

  /** The bytes from `i` up to the next line feed hold no line feed. */
  lemma NoLineFeedBefore(s: seq<u8>, i: nat, c: nat)
    requires i <= |s| && i <= c <= LineEnd(s, i)
    ensures LF !in s[i..c]
  {
    var t := s[i..c];
    forall p | 0 <= p < |t| ensures t[p] != LF {
      assert t[p] == s[i + p];
    }
  }

  lemma {:induction false} LinesFromAreSlices(s: seq<u8>, i: nat)
    requires i <= |s|
    ensures forall k :: 0 <= k < |LinesFrom(s, i)| ==> IsSliceOf(LinesFrom(s, i)[k], s) && LF !in LinesFrom(s, i)[k]
    decreases |s| - i
  {
    if i < |s| {
      var n := LineEnd(s, i);
      var ls := LinesFrom(s, i);
      if n == |s| {
        NoLineFeedBefore(s, i, |s|);
        assert ls[0] == s[i..|s|];
      } else {
        var cut := if n > i && s[n - 1] == CR then n - 1 else n;
        NoLineFeedBefore(s, i, cut);
        LinesFromAreSlices(s, n + 1);
        assert ls == [s[i..cut]] + LinesFrom(s, n + 1);
        forall k | 0 < k < |ls| ensures IsSliceOf(ls[k], s) && LF !in ls[k] {
          assert ls[k] == LinesFrom(s, n + 1)[k - 1];
        }
      }
    }
  }

  /** Every line is a slice of the text and holds no line feed. */
  lemma LinesAreSlices(s: seq<u8>)
    ensures forall k :: 0 <= k < |Lines(s)| ==> IsSliceOf(Lines(s)[k], s) && LF !in Lines(s)[k]
  {
    LinesFromAreSlices(s, 0);
  }

  /** Every line followed by a line feed. */
  function TerminatedLines(ls: seq<seq<u8>>): seq<u8> {
    if |ls| == 0 then [] else ls[0] + [LF] + TerminatedLines(ls[1..])
  }

  /** The text with every line feed ending a line: a final one is added when it is missing. */
  function LineFeedTerminated(s: seq<u8>): seq<u8> {
    if |s| == 0 || s[|s| - 1] == LF then s else s + [LF]
  }

  lemma TerminatedCons(l: seq<u8>, ls: seq<seq<u8>>)
    ensures TerminatedLines([l] + ls) == l + [LF] + TerminatedLines(ls)
  {
    assert ([l] + ls)[1..] == ls;
  }

  /**
   * The text with the carriage return of every CR LF pair removed: the
   * line endings `lines` accepts, all written as a bare line feed.
   */
  function DropCrBeforeLf(s: seq<u8>): (r: seq<u8>)
    ensures |r| <= |s|
  {
    if |s| == 0 then []
    else if |s| >= 2 && s[0] == CR && s[1] == LF then DropCrBeforeLf(s[1..])
    else [s[0]] + DropCrBeforeLf(s[1..])
  }

  /** Removing CR LF carriage returns works piece by piece, unless the cut splits such a pair. */
  lemma {:induction false} DropCrSplits(a: seq<u8>, b: seq<u8>)
    requires |a| == 0 || |b| == 0 || a[|a| - 1] != CR || b[0] != LF
    ensures DropCrBeforeLf(a + b) == DropCrBeforeLf(a) + DropCrBeforeLf(b)
    decreases |a|
  {
    if |a| > 0 {
      assert (a + b)[1..] == a[1..] + b;
      if |a| == 1 {
        assert a[1..] == [];
        assert a[1..] + b == b;
      } else {
        DropCrSplits(a[1..], b);
      }
    } else {
      assert a + b == b;
    }
  }

  /** Text without line feeds has no CR LF pair to lose. */
  lemma {:induction false} DropCrWithoutLf(t: seq<u8>)
    requires LF !in t
    ensures DropCrBeforeLf(t) == t
    decreases |t|
  {
    if |t| > 0 {
      assert t == [t[0]] + t[1..];
      if |t| >= 2 {
        assert t[1] in t;
      }
      DropCrWithoutLf(t[1..]);
    }
  }

  /** Text without carriage returns has no CR LF pair to lose. */
  lemma {:induction false} DropCrWithoutCr(t: seq<u8>)
    requires CR !in t
    ensures DropCrBeforeLf(t) == t
    decreases |t|
  {
    if |t| > 0 {
      assert t == [t[0]] + t[1..];
      assert t[0] in t;
      DropCrWithoutCr(t[1..]);
    }
  }

  /** A line and its line feed: one carriage return right before the line feed goes. */
  lemma DropCrOfLine(t: seq<u8>)
    requires LF !in t
    ensures DropCrBeforeLf(t + [LF]) == (if |t| > 0 && t[|t| - 1] == CR then t[..|t| - 1] else t) + [LF]
  {
    assert DropCrBeforeLf([LF]) == [LF] by {
      assert [LF][1..] == [];
    }
    if |t| > 0 && t[|t| - 1] == CR {
      var u := t[..|t| - 1];
      assert t + [LF] == u + [CR, LF];
      assert LF !in u by {
        forall p | 0 <= p < |u| ensures u[p] != LF {
          assert u[p] == t[p];
        }
      }
      DropCrSplits(u, [CR, LF]);
      DropCrWithoutLf(u);
      assert [CR, LF][1..] == [LF];
    } else {
      DropCrSplits(t, [LF]);
      DropCrWithoutLf(t);
    }
  }

  /** From `i` on, the first line and its ending come first, as `lines` cuts it. */
  lemma DropCrOfLineAt(s: seq<u8>, i: nat, n: nat)
    requires i <= n < |s| && n == LineEnd(s, i)
    ensures DropCrBeforeLf(s[i..]) == s[i..if n > i && s[n - 1] == CR then n - 1 else n] + [LF] + DropCrBeforeLf(s[n + 1..])
  {
    var t, rest := s[i..n], s[n + 1..];
    NoLineFeedBefore(s, i, n);
    assert s[i..] == (t + [LF]) + rest;
    DropCrSplits(t + [LF], rest);
    DropCrOfLine(t);
    if n > i && s[n - 1] == CR {
      assert t[..|t| - 1] == s[i..n - 1];
    }
  }

  /** A terminated line in front of a text: terminating the whole adds nothing to the line. */
  lemma TerminatedAfterLine(line: seq<u8>, d: seq<u8>)
    ensures LineFeedTerminated(line + [LF] + d) == line + [LF] + LineFeedTerminated(d)
  {
    if |d| > 0 {
      assert (line + [LF] + d)[|line + [LF] + d| - 1] == d[|d| - 1];
    } else {
      assert line + [LF] + d == line + [LF];
    }
  }

  /** The last line, with no line feed after it, comes back with one added. */
  lemma LastLineRoundTrip(s: seq<u8>, i: nat)
    requires i < |s| && LineEnd(s, i) == |s|
    ensures TerminatedLines(LinesFrom(s, i)) == LineFeedTerminated(DropCrBeforeLf(s[i..]))
  {
    var l := s[i..];
    assert LinesFrom(s, i) == [l];
    TerminatedCons(l, []);
    NoLineFeedBefore(s, i, |s|);
    assert s[i..|s|] == l;
    DropCrWithoutLf(l);
    assert l[|l| - 1] == s[|s| - 1] != LF;
  }

  lemma {:induction false} LinesFromRoundTrip(s: seq<u8>, i: nat)
    requires i <= |s|
    ensures TerminatedLines(LinesFrom(s, i)) == LineFeedTerminated(DropCrBeforeLf(s[i..]))
    decreases |s| - i
  {
    if i < |s| {
      var n := LineEnd(s, i);
      if n == |s| {
        LastLineRoundTrip(s, i);
      } else {
        var cut := if n > i && s[n - 1] == CR then n - 1 else n;
        var line, ls, d := s[i..cut], LinesFrom(s, n + 1), DropCrBeforeLf(s[n + 1..]);
        calc {
          TerminatedLines(LinesFrom(s, i));
          { assert LinesFrom(s, i) == [line] + ls; }
          TerminatedLines([line] + ls);
          { TerminatedCons(line, ls); }
          line + [LF] + TerminatedLines(ls);
          { LinesFromRoundTrip(s, n + 1); }
          line + [LF] + LineFeedTerminated(d);
          { TerminatedAfterLine(line, d); }
          LineFeedTerminated(line + [LF] + d);
          { DropCrOfLineAt(s, i, n); }
          LineFeedTerminated(DropCrBeforeLf(s[i..]));
        }
      }
    }
  }

  /**
   * `lines` loses nothing but the line endings: putting a line feed after
   * each line gives back the text with every CR LF written as LF, and with a
   * line feed added at the end when it had none. Without carriage returns
   * that is the text itself.
   */
  lemma LinesRoundTrip(s: seq<u8>)
    ensures TerminatedLines(Lines(s)) == LineFeedTerminated(DropCrBeforeLf(s))
    ensures CR !in s ==> TerminatedLines(Lines(s)) == LineFeedTerminated(s)
  {
    LinesFromRoundTrip(s, 0);
    assert s[0..] == s;
    if CR !in s {
      DropCrWithoutCr(s);
    }
  }

  // ---------------------------------------------------------------------------
  // split_whitespace

  /** What `split_whitespace` yields: a non-empty run of bytes none of which is whitespace. */
  predicate IsWord(w: seq<u8>) {
    |w| > 0 && forall i :: 0 <= i < |w| ==> !IsWhitespace(w[i])
  }

  /**
   * The items of `str::split_whitespace` from byte `i` on: the maximal runs
   * of non-whitespace bytes, front to back.
   */
  function SplitWhitespaceFrom(s: seq<u8>, i: nat): seq<seq<u8>>
    requires i <= |s|
    decreases |s| - i
  {
    var k := SkipWhitespace(s, i);
    if k == |s| then []
    else
      var e := WordEnd(s, k);
      [s[k..e]] + SplitWhitespaceFrom(s, e)
  }

  /** The items of `str::split_whitespace`. */
  function SplitWhitespace(s: seq<u8>): seq<seq<u8>> {
    SplitWhitespaceFrom(s, 0)
  }

  /** A word starts at a byte that is not whitespace and runs up to the next whitespace. */
  lemma WordAt(s: seq<u8>, k: nat)
    requires k < |s| && !IsWhitespace(s[k])
    ensures k < WordEnd(s, k) && IsWord(s[k..WordEnd(s, k)])
  {
    var w := s[k..WordEnd(s, k)];
    forall p | 0 <= p < |w| ensures !IsWhitespace(w[p]) {
      assert w[p] == s[k + p];
    }
  }

  lemma {:induction false} WordsFromAreStrs(s: Str, i: nat)
    requires i <= |s| && IsCharBoundary(s, i)
    ensures AllStrs(SplitWhitespaceFrom(s, i))
    decreases |s| - i
  {
    var k := SkipWhitespace(s, i);
    if k < |s| {
      var e := WordEnd(s, k);
      assert IsCharBoundary(s, e) by {
        if e < |s| {
          AtAsciiIsBoundary(s, e);
        }
      }
      assert ValidUtf8(s[k..e]) by {
        SkipWhitespaceKeepsBoundary(s, i);
        SliceIsValid(s, k, e);
      }
      WordsFromAreStrs(s, e);
      AllStrsCons(s[k..e], SplitWhitespaceFrom(s, e));
      assert SplitWhitespaceFrom(s, i) == [s[k..e]] + SplitWhitespaceFrom(s, e);
    }
  }

  /** Every word of a `str` is a `str`. */
  lemma WordsAreStrs(s: Str)
    ensures AllStrs(SplitWhitespace(s))
  {
    WordsFromAreStrs(s, 0);
  }

  lemma {:induction false} SplitWhitespaceFromWords(s: seq<u8>, i: nat)
    requires i <= |s|
    ensures forall j :: 0 <= j < |SplitWhitespaceFrom(s, i)| ==>
              IsWord(SplitWhitespaceFrom(s, i)[j]) && IsSliceOf(SplitWhitespaceFrom(s, i)[j], s)
    decreases |s| - i
  {
    var k := SkipWhitespace(s, i);
    if k < |s| {
      WordAt(s, k);
      var e := WordEnd(s, k);
      SplitWhitespaceFromWords(s, e);
      var ws := SplitWhitespaceFrom(s, i);
      assert ws == [s[k..e]] + SplitWhitespaceFrom(s, e);
      forall j | 0 < j < |ws| ensures IsWord(ws[j]) && IsSliceOf(ws[j], s) {
        assert ws[j] == SplitWhitespaceFrom(s, e)[j - 1];
      }
    }
  }

  /** `split_whitespace` yields words, each a slice of the text. */
  lemma SplitWhitespaceWords(s: seq<u8>)
    ensures forall j :: 0 <= j < |SplitWhitespace(s)| ==>
              IsWord(SplitWhitespace(s)[j]) && IsSliceOf(SplitWhitespace(s)[j], s)
  {
    SplitWhitespaceFromWords(s, 0);
  }

  /** The bytes of `s` from index `i` on that are not whitespace, in order. */
  function NonWhitespaceFrom(s: seq<u8>, i: nat): seq<u8>
    requires i <= |s|
    decreases |s| - i
  {
    if i == |s| then []
    else (if IsWhitespace(s[i]) then [] else [s[i]]) + NonWhitespaceFrom(s, i + 1)
  }

  /** The bytes of `s` that are not whitespace, in order. */
  function NonWhitespace(s: seq<u8>): seq<u8> {
    NonWhitespaceFrom(s, 0)
  }

  /** The words joined together. */
  function Concat(ws: seq<seq<u8>>): seq<u8> {
    if |ws| == 0 then [] else ws[0] + Concat(ws[1..])
  }

  lemma ConcatCons(w: seq<u8>, ws: seq<seq<u8>>)
    ensures Concat([w] + ws) == w + Concat(ws)
  {
    assert ([w] + ws)[1..] == ws;
  }

  /** Nothing of a run of whitespace survives. */
  lemma {:induction false} SkipBlank(s: seq<u8>, i: nat, k: nat)
    requires i <= k <= |s| && forall p :: i <= p < k ==> IsWhitespace(s[p])
    ensures NonWhitespaceFrom(s, i) == NonWhitespaceFrom(s, k)
    decreases k - i
  {
    if i < k {
      SkipBlank(s, i + 1, k);
    }
  }

  /** All of a run of non-whitespace survives. */
  lemma {:induction false} KeepWord(s: seq<u8>, k: nat, e: nat)
    requires k <= e <= |s| && forall p :: k <= p < e ==> !IsWhitespace(s[p])
    ensures NonWhitespaceFrom(s, k) == s[k..e] + NonWhitespaceFrom(s, e)
    decreases e - k
  {
    if k < e {
      KeepWord(s, k + 1, e);
      var rest := NonWhitespaceFrom(s, e);
      assert NonWhitespaceFrom(s, k) == [s[k]] + NonWhitespaceFrom(s, k + 1);
      assert [s[k]] + (s[k + 1..e] + rest) == ([s[k]] + s[k + 1..e]) + rest;
      assert s[k..e] == [s[k]] + s[k + 1..e];
    }
  }

  lemma {:induction false} SplitWhitespaceFromLosesOnlyWhitespace(s: seq<u8>, i: nat)
    requires i <= |s|
    ensures Concat(SplitWhitespaceFrom(s, i)) == NonWhitespaceFrom(s, i)
    decreases |s| - i
  {
    var k := SkipWhitespace(s, i);
    SkipBlank(s, i, k);
    if k < |s| {
      WordAt(s, k);
      var e := WordEnd(s, k);
      KeepWord(s, k, e);
      SplitWhitespaceFromLosesOnlyWhitespace(s, e);
      assert SplitWhitespaceFrom(s, i) == [s[k..e]] + SplitWhitespaceFrom(s, e);
      ConcatCons(s[k..e], SplitWhitespaceFrom(s, e));
    }
  }

  /** Together the words of `split_whitespace` hold every non-whitespace byte of the text, in order. */
  lemma SplitWhitespaceLosesOnlyWhitespace(s: seq<u8>)
    ensures Concat(SplitWhitespace(s)) == NonWhitespace(s)
  {
    SplitWhitespaceFromLosesOnlyWhitespace(s, 0);
  }
}
