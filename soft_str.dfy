/**
 * `SoftAsciiStr`: a borrowed `str` that carries a *soft* US-ASCII
 * constraint. The constraint is checked only by the checked constructor
 * `from_str` and by `revalidate_soft_constraint`; every other operation runs
 * the native `str` operation and re-wraps its result without a check. The
 * central lemma, `RewrapKeepsSoftConstraint`, shows that this unchecked
 * re-wrapping never breaks the constraint of a view that satisfied it.
 */
module SoftStr {
  import opened RustCore
  import opened Utf8
  import StdStr

  /** `SoftAsciiChar`: a `char` expected, but not guaranteed, to be US-ASCII. */
  datatype SoftAsciiChar = SoftAsciiChar(ch: char)

  /** `FromSourceError`: the error of a failed check, carrying the rejected input. */
  datatype FromSourceError<S> = FromSourceError(source: S) {
    /** `FromSourceError::into_source`: hands the rejected input back. */
    function IntoSource(): S {
      source
    }
  }

  /** `SoftAsciiString`, the owned counterpart: a `String` with the same soft constraint. */
  datatype SoftAsciiString = SoftAsciiString(inner: Str) {
    /** `Deref<Target = SoftAsciiStr>`: the borrowed view of the same content. */
    function Deref(): SoftAsciiStr {
      SoftAsciiStr(inner)
    }
  }

  /** `Cow<str>`: a borrowed `str` or an owned `String`; both dereference to their content. */
  datatype CowStr = BorrowedStr(borrowed: Str) | OwnedString(owned: Str) {
    function Deref(): Str {
      match this
      case BorrowedStr(s) => s
      case OwnedString(s) => s
    }
  }

  /** `Cow<SoftAsciiStr>`: a borrowed view or an owned `SoftAsciiString`. */
  datatype CowSoftAsciiStr = BorrowedSoft(view: SoftAsciiStr) | OwnedSoft(ownedString: SoftAsciiString) {
    function Deref(): SoftAsciiStr {
      match this
      case BorrowedSoft(v) => v
      case OwnedSoft(o) => o.Deref()
    }
  }

  /**
   * The view. Its derived `PartialEq` compares the wrapped `str`, which is
   * Dafny's structural equality on this datatype.
   */
  datatype SoftAsciiStr = SoftAsciiStr(inner: Str) {

    // -------------------------------------------------------------------------
    // construction and the two checks

    /** `from_unchecked`: wraps any `str`, ASCII or not, keeping its content. */
    static function FromUnchecked(s: Str): (v: SoftAsciiStr)
      ensures v.AsStr() == s
    {
      SoftAsciiStr(s)
    }

    /** `from_str`: the checked constructor. */
    static function FromStr(source: Str): (r: Result<SoftAsciiStr, FromSourceError<Str>>)
      ensures r.Ok? <==> Utf8.IsAscii(source)
      ensures r.Ok? ==> r.value.AsStr() == source
      ensures r.Err? ==> r.error.IntoSource() == source
    {
      if Utf8.IsAscii(source) then Ok(FromUnchecked(source)) else Err(FromSourceError(source))
    }

    /** `revalidate_soft_constraint`: re-runs the check on content that may have changed. */
    function RevalidateSoftConstraint(): (r: Result<SoftAsciiStr, FromSourceError<Str>>)
      ensures r.Ok? <==> IsAscii()
      ensures r.Ok? ==> r.value == this
      ensures r.Err? ==> r.error.IntoSource() == AsStr()
    {
      if IsAscii() then Ok(this) else Err(FromSourceError(AsStr()))
    }

    /** `as_str` (and `AsRef<str>`): the wrapped content, which determines the view. */
    function AsStr(): (s: Str)
      ensures SoftAsciiStr(s) == this
    {
      inner
    }

    /** `as_bytes` (and `AsRef<[u8]>`): the content's bytes, valid UTF-8, ASCII exactly when the view is. */
    function AsBytes(): (b: seq<u8>)
      ensures b == AsStr() && ValidUtf8(b)
      ensures Utf8.IsAscii(b) <==> IsAscii()
    {
      inner
    }

    // -------------------------------------------------------------------------
    // forwarded queries

    /** `len`: the length in bytes, not in chars; zero exactly for empty content. */
    function Len(): (n: nat)
      ensures n == |AsBytes()|
      ensures n == 0 <==> AsStr() == []
    {
      |inner|
    }

    /** `is_empty`: the view is the default (empty) one. */
    function IsEmpty(): (r: bool)
      ensures r <==> Len() == 0
      ensures r <==> this == Default()
    {
      |inner| == 0
    }

    /** `is_ascii`: holds exactly when the checked constructor accepts the content. */
    function IsAscii(): (r: bool)
      ensures r <==> FromStr(AsStr()).Ok?
    {
      Utf8.IsAscii(inner)
    }

    /** `is_char_boundary`: the end of the view, or an offset `char_indices` yields. */
    function IsCharBoundary(index: nat): (r: bool)
      ensures r <==> index == Len() ||
                     (index < Len() && exists k :: 0 <= k < |CharIndices(AsStr())| && CharIndices(AsStr())[k].0 == index)
    {
      if index < |inner| then
        Utf8.BoundaryIsOffset(inner, index);
        assert AsStr() == inner && Len() == |inner|;
        Utf8.IsCharBoundary(inner, index)
      else Utf8.IsCharBoundary(inner, index)
    }

    /** `Default for &SoftAsciiStr`: the view of the empty `str`. */
    static function Default(): (r: SoftAsciiStr)
      ensures r.Len() == 0 && r.IsAscii()
    {
      FromUnchecked([])
    }

    // -------------------------------------------------------------------------
    // slicing; `str` panics where these have a `requires`

    /** `split_at`: the view cut at a char boundary `mid`. */
    function SplitAt(mid: nat): (r: (SoftAsciiStr, SoftAsciiStr))
      requires IsCharBoundary(mid)
      ensures r.0.Len() == mid
      ensures r.0.AsStr() + r.1.AsStr() == AsStr()
      ensures IsAscii() <==> r.0.IsAscii() && r.1.IsAscii()
    {
      BoundaryPrefix(inner, mid);
      BoundarySuffix(inner, mid);
      assert inner == inner[..mid] + inner[mid..];
      (FromUnchecked(inner[..mid]), FromUnchecked(inner[mid..]))
    }

    /** `Index<Range<usize>>` (`&v[start..end]`): the bytes from `start` up to `end`. */
    function IndexRange(start: nat, end: nat): (r: SoftAsciiStr)
      requires start <= end && IsCharBoundary(start) && IsCharBoundary(end)
      ensures r.Len() == end - start
      ensures forall i :: 0 <= i < r.Len() ==> r.AsBytes()[i] == AsBytes()[start + i]
      ensures StdStr.IsSliceOf(r.AsStr(), AsStr())
      ensures IsAscii() ==> r.IsAscii()
    {
      SliceIsValid(inner, start, end);
      var t: Str := inner[start..end];
      assert StdStr.IsSliceOf(t, inner);
      if Utf8.IsAscii(inner) then StdStr.SliceOfAscii(t, inner); FromUnchecked(t)
      else FromUnchecked(t)
    }

    /** `Index<RangeFrom<usize>>` (`&v[start..]`). */
    function IndexFrom(start: nat): (r: SoftAsciiStr)
      requires IsCharBoundary(start)
      ensures r == IndexRange(start, Len())
    {
      BoundarySuffix(inner, start);
      FromUnchecked(inner[start..])
    }

    /** `Index<RangeTo<usize>>` (`&v[..end]`). */
    function IndexTo(end: nat): (r: SoftAsciiStr)
      requires IsCharBoundary(end)
      ensures r == IndexRange(0, end)
    {
      BoundaryPrefix(inner, end);
      FromUnchecked(inner[..end])
    }

    /** `Index<RangeFull>` (`&v[..]`). */
    function IndexFull(): (r: SoftAsciiStr)
      ensures r == IndexRange(0, Len())
    {
      assert inner[0..|inner|] == inner;
      this
    }

    // -------------------------------------------------------------------------
    // trims (ASCII whitespace)

    /** `trim_start`: std's `trim_start` of the content, re-wrapped unchecked. */
    function TrimStart(): (r: SoftAsciiStr)
      ensures r.AsStr() == StdStr.TrimStart(AsStr())
      ensures StdStr.IsSliceOf(r.AsStr(), AsStr())
      ensures IsAscii() ==> r.IsAscii()
    {
      StdStr.TrimsAreSlices(inner);
      var t := StdStr.TrimStart(inner);
      if Utf8.IsAscii(inner) then StdStr.SliceOfAscii(t, inner); FromUnchecked(t)
      else FromUnchecked(t)
    }

    /** `trim_end`: std's `trim_end` of the content, re-wrapped unchecked. */
    function TrimEnd(): (r: SoftAsciiStr)
      ensures r.AsStr() == StdStr.TrimEnd(AsStr())
      ensures StdStr.IsSliceOf(r.AsStr(), AsStr())
      ensures IsAscii() ==> r.IsAscii()
    {
      StdStr.TrimsAreSlices(inner);
      var t := StdStr.TrimEnd(inner);
      if Utf8.IsAscii(inner) then StdStr.SliceOfAscii(t, inner); FromUnchecked(t)
      else FromUnchecked(t)
    }

    /** `trim`: std's `trim` of the content, re-wrapped unchecked. */
    function Trim(): (r: SoftAsciiStr)
      ensures r.AsStr() == StdStr.Trim(AsStr())
      ensures StdStr.IsSliceOf(r.AsStr(), AsStr())
      ensures IsAscii() ==> r.IsAscii()
    {
      StdStr.TrimsAreSlices(inner);
      var t := StdStr.Trim(inner);
      if Utf8.IsAscii(inner) then StdStr.SliceOfAscii(t, inner); FromUnchecked(t)
      else FromUnchecked(t)
    }

    // -------------------------------------------------------------------------
    // producing an owned string

    /** `to_lowercase`: std's (ASCII) lowercase of the content as an unchecked `SoftAsciiString`. */
    function ToLowercase(): (r: SoftAsciiString)
      ensures r.inner == StdStr.ToLowercase(AsStr())
      ensures r.Deref().Len() == Len()
      ensures r.Deref().IsAscii() <==> IsAscii()
    {
      SoftAsciiString(StdStr.ToLowercase(inner))
    }

    /** `to_uppercase`: std's (ASCII) uppercase of the content as an unchecked `SoftAsciiString`. */
    function ToUppercase(): (r: SoftAsciiString)
      ensures r.inner == StdStr.ToUppercase(AsStr())
      ensures r.Deref().Len() == Len()
      ensures r.Deref().IsAscii() <==> IsAscii()
    {
      SoftAsciiString(StdStr.ToUppercase(inner))
    }

    /** `repeat`: `n` copies of the content as an unchecked `SoftAsciiString`. */
    function Repeat(n: nat): (r: SoftAsciiString)
      ensures r.inner == StdStr.Repeat(AsStr(), n)
      ensures r.Deref().Len() == n * Len()
      ensures IsAscii() ==> r.Deref().IsAscii()
    {
      if Utf8.IsAscii(inner) then StdStr.RepeatOfAscii(inner, n); SoftAsciiString(StdStr.Repeat(inner, n))
      else SoftAsciiString(StdStr.Repeat(inner, n))
    }

    /** `ToOwned`: an owned copy of the content. */
    function ToOwned(): (r: SoftAsciiString)
      ensures r.Deref() == this
    {
      SoftAsciiString(inner)
    }

    // -------------------------------------------------------------------------
    // mutation through `inner_str_mut`

    /**
     * `inner_str_mut`: the content after a write through the returned
     * `&mut str`, as any valid UTF-8 of the same length. This bounds every
     * such write from above: safe code reaches only sub-slices and the
     * in-place ASCII case changes, which keep ASCII content ASCII, while
     * `unsafe` `as_bytes_mut` may write any bytes that keep the content
     * valid UTF-8, non-ASCII ones included.
     */
    function InnerStrMut(written: Str): (r: SoftAsciiStr)
      requires |written| == Len()
      ensures r.AsStr() == written
      ensures r.Len() == Len()
    {
      FromUnchecked(written)
    }

    // -------------------------------------------------------------------------
    // content equality

    /** `PartialEq<SoftAsciiString> for SoftAsciiStr`: compares with the string's view. */
    function EqSoftAsciiString(other: SoftAsciiString): (r: bool)
      ensures r <==> AsStr() == other.inner
    {
      this == other.Deref()
    }

    /**
     * `PartialEq<str>` and `PartialEq<String>` for `SoftAsciiStr`: the view
     * equals a string exactly when it is that string wrapped unchecked.
     */
    function EqStr(other: Str): (r: bool)
      ensures r <==> this == FromUnchecked(other)
    {
      AsStr() == other
    }

    /**
     * `PartialEq<Cow<str>> for SoftAsciiStr`: borrowed or owned, the `Cow`
     * compares as the string it dereferences to.
     */
    function EqCowStr(other: CowStr): (r: bool)
      ensures r <==> this == FromUnchecked(other.Deref())
      ensures other.BorrowedStr? ==> (r <==> EqStr(other.borrowed))
      ensures other.OwnedString? ==> (r <==> EqStr(other.owned))
    {
      AsStr() == other.Deref()
    }

    /**
     * `PartialEq<Cow<SoftAsciiStr>> for SoftAsciiStr`: borrowed or owned, the
     * `Cow` compares as the view it dereferences to.
     */
    function EqCowSoftAsciiStr(other: CowSoftAsciiStr): (r: bool)
      ensures r <==> this == other.Deref()
      ensures other.BorrowedSoft? ==> (r <==> this == other.view)
      ensures other.OwnedSoft? ==> (r <==> EqSoftAsciiString(other.ownedString))
    {
      AsStr() == other.Deref().AsStr()
    }
  }

  /** `PartialEq<SoftAsciiStr>` for `str` and for `String`: symmetric to `EqStr`. */
  function StrEqSoftAsciiStr(s: Str, other: SoftAsciiStr): (r: bool)
    ensures r <==> other.EqStr(s)
    ensures r <==> SoftAsciiStr.FromUnchecked(s) == other
  {
    s == other.AsStr()
  }

  /** `PartialEq<SoftAsciiStr> for Cow<str>`: symmetric to `EqCowStr`. */
  function CowStrEqSoftAsciiStr(c: CowStr, other: SoftAsciiStr): (r: bool)
    ensures r <==> other.EqCowStr(c)
    ensures r <==> StrEqSoftAsciiStr(c.Deref(), other)
  {
    c.Deref() == other.AsStr()
  }

  /** `PartialEq<SoftAsciiStr> for Cow<SoftAsciiStr>`: symmetric to `EqCowSoftAsciiStr`. */
  function CowSoftAsciiStrEqSoftAsciiStr(c: CowSoftAsciiStr, other: SoftAsciiStr): (r: bool)
    ensures r <==> other.EqCowSoftAsciiStr(c)
    ensures r <==> c.Deref() == other
  {
    c.Deref().AsStr() == other.AsStr()
  }

  // ---------------------------------------------------------------------------
  // laws of construction and checking

  /** `from_unchecked` and `as_str` are inverse: the wrapper adds nothing to the content. */
  lemma FromUncheckedRoundTrip(s: Str, v: SoftAsciiStr)
    ensures SoftAsciiStr.FromUnchecked(s).AsStr() == s
    ensures SoftAsciiStr.FromUnchecked(v.AsStr()) == v
  {
  }

  /** Revalidating an unchecked view decides exactly what the checked constructor decides. */
  lemma RevalidateIsDeferredFromStr(s: Str)
    ensures SoftAsciiStr.FromUnchecked(s).RevalidateSoftConstraint() == SoftAsciiStr.FromStr(s)
  {
  }

  /** A view that passed `from_str` passes every later revalidation, unchanged. */
  lemma RevalidateAfterFromStr(s: Str)
    requires SoftAsciiStr.FromStr(s).Ok?
    ensures SoftAsciiStr.FromStr(s).value.RevalidateSoftConstraint() == SoftAsciiStr.FromStr(s)
  {
  }

  /** Revalidation is idempotent: an accepted view is accepted again, as itself. */
  lemma RevalidateIsIdempotent(v: SoftAsciiStr)
    requires v.RevalidateSoftConstraint().Ok?
    ensures v.RevalidateSoftConstraint().value.RevalidateSoftConstraint() == v.RevalidateSoftConstraint()
  {
  }

  /**
   * Why revalidation exists: a write through `inner_str_mut` into an ASCII
   * view of at least two bytes, such as "é" (C3 A9) written with `unsafe`
   * `as_bytes_mut`, can leave it non-ASCII while still valid UTF-8.
   */
  lemma MutationCanBreakSoftConstraint(v: SoftAsciiStr)
    requires v.IsAscii() && v.Len() >= 2
    ensures exists w: Str :: |w| == v.Len() && v.InnerStrMut(w).RevalidateSoftConstraint().Err?
  {
    var e: seq<u8> := [0xC3, 0xA9];
    OneCharIsValid(e);
    var tail := v.AsStr()[2..];
    assert Utf8.IsAscii(tail);
    AsciiIsValid(tail);
    ConcatIsValid(e, tail);
    var w: Str := e + tail;
    assert !Utf8.IsAscii(w) by { assert w[0] == 0xC3; }
    assert v.InnerStrMut(w).RevalidateSoftConstraint().Err?;
  }

  /** The unchecked wrap of an owned string keeps the constraint exactly when the content is ASCII. */
  lemma OwnedCopyKeepsConstraint(v: SoftAsciiStr)
    ensures v.ToOwned().Deref().RevalidateSoftConstraint() == v.RevalidateSoftConstraint()
  {
  }

  // ---------------------------------------------------------------------------
  // the soft constraint survives every unchecked re-wrap

  /**
   * Every operation that re-wraps a `str` result without a check gives a view
   * that passes `revalidate_soft_constraint` when the view it started from did:
   * `split_at`, the range indexes, the trims, ASCII case conversion and `repeat`.
   */
  lemma RewrapKeepsSoftConstraint(v: SoftAsciiStr)
    requires v.RevalidateSoftConstraint().Ok?
    ensures forall mid :: v.IsCharBoundary(mid) ==>
              v.SplitAt(mid).0.RevalidateSoftConstraint().Ok? && v.SplitAt(mid).1.RevalidateSoftConstraint().Ok?
    ensures forall start, end :: start <= end && v.IsCharBoundary(start) && v.IsCharBoundary(end) ==>
              v.IndexRange(start, end).RevalidateSoftConstraint().Ok?
    ensures forall start :: v.IsCharBoundary(start) ==> v.IndexFrom(start).RevalidateSoftConstraint().Ok?
    ensures forall end :: v.IsCharBoundary(end) ==> v.IndexTo(end).RevalidateSoftConstraint().Ok?
    ensures v.IndexFull().RevalidateSoftConstraint().Ok?
    ensures v.TrimStart().RevalidateSoftConstraint().Ok?
    ensures v.TrimEnd().RevalidateSoftConstraint().Ok?
    ensures v.Trim().RevalidateSoftConstraint().Ok?
    ensures v.ToLowercase().Deref().RevalidateSoftConstraint().Ok?
    ensures v.ToUppercase().Deref().RevalidateSoftConstraint().Ok?
    ensures forall n :: v.Repeat(n).Deref().RevalidateSoftConstraint().Ok?
  {
  }

  // ---------------------------------------------------------------------------
  // relations between the slicing operations

  /** `split_at(mid)` is the pair `(&v[..mid], &v[mid..])`. */
  lemma SplitAtIsTwoIndexes(v: SoftAsciiStr, mid: nat)
    requires v.IsCharBoundary(mid)
    ensures v.SplitAt(mid) == (v.IndexTo(mid), v.IndexFrom(mid))
  {
  }

  /** A char boundary of a slice cut at char boundaries sits on a char boundary of the whole. */
  lemma BoundaryOfSlice(s: seq<u8>, a: nat, b: nat, c: nat)
    requires a <= b <= |s| && Utf8.IsCharBoundary(s, a) && Utf8.IsCharBoundary(s, b)
    requires Utf8.IsCharBoundary(s[a..b], c)
    ensures Utf8.IsCharBoundary(s, a + c)
  {
    if 0 < c < b - a {
      assert s[a..b][c] == s[a + c];
    }
  }

  /** A char boundary of a range of the view is, shifted by the range's start, a char boundary of the view. */
  lemma IndexBoundaryShifts(v: SoftAsciiStr, a: nat, b: nat, c: nat)
    requires a <= b && v.IsCharBoundary(a) && v.IsCharBoundary(b)
    requires v.IndexRange(a, b).IsCharBoundary(c)
    ensures v.IsCharBoundary(a + c)
  {
    var s := v.AsStr();
    assert v.IndexRange(a, b).AsStr() == s[a..b];
    BoundaryOfSlice(s, a, b, c);
    OffsetsBoundaryWitness(v, a + c);
  }

  /** Cutting a range out of a range is cutting it out of the view. */
  lemma IndexOfIndex(v: SoftAsciiStr, a: nat, b: nat, c: nat, d: nat)
    requires a <= b && v.IsCharBoundary(a) && v.IsCharBoundary(b)
    requires c <= d && v.IndexRange(a, b).IsCharBoundary(c) && v.IndexRange(a, b).IsCharBoundary(d)
    ensures v.IsCharBoundary(a + c) && v.IsCharBoundary(a + d)
    ensures v.IndexRange(a, b).IndexRange(c, d) == v.IndexRange(a + c, a + d)
  {
    IndexBoundaryShifts(v, a, b, c);
    IndexBoundaryShifts(v, a, b, d);
    var s := v.AsStr();
    assert v.IndexRange(a, b).AsStr() == s[a..b];
    StdStr.CutOfCut(s, a, b, c, d);
  }

  /** A byte-level char boundary is a boundary of the view. */
  lemma OffsetsBoundaryWitness(v: SoftAsciiStr, i: nat)
    requires Utf8.IsCharBoundary(v.AsStr(), i)
    ensures v.IsCharBoundary(i)
  {
    if i < v.Len() {
      Utf8.BoundaryIsOffset(v.AsStr(), i);
    }
  }

  /** `repeat(m + n)` is `repeat(m)` followed by `repeat(n)`; `repeat(1)` is the content itself. */
  lemma RepeatLaws(v: SoftAsciiStr, m: nat, n: nat)
    ensures v.Repeat(m + n).inner == v.Repeat(m).inner + v.Repeat(n).inner
    ensures v.Repeat(1).Deref() == v
    ensures v.Repeat(0).Deref() == SoftAsciiStr.Default()
  {
    StdStr.RepeatAdds(v.AsStr(), m, n);
    assert StdStr.Repeat(v.AsStr(), 1) == v.AsStr() + StdStr.Repeat(v.AsStr(), 0);
  }

  // ---------------------------------------------------------------------------
  // equality is content equality, in every direction

  /**
   * The view against `SoftAsciiString`, `str`/`String`, `Cow<str>` and
   * `Cow<SoftAsciiStr>`: each comparison, in both directions, holds exactly
   * when the contents are equal; a view equals its owned copy.
   */
  lemma EqualityIsContentEquality(v: SoftAsciiStr, o: SoftAsciiString, s: Str, cs: CowStr, cv: CowSoftAsciiStr)
    ensures v.EqSoftAsciiString(o) <==> v.AsStr() == o.Deref().AsStr()
    ensures v.EqStr(s) <==> v.AsStr() == s
    ensures StrEqSoftAsciiStr(s, v) <==> v.EqStr(s)
    ensures v.EqCowStr(cs) <==> v.AsStr() == cs.Deref()
    ensures CowStrEqSoftAsciiStr(cs, v) <==> v.EqCowStr(cs)
    ensures v.EqCowSoftAsciiStr(cv) <==> v.AsStr() == cv.Deref().AsStr()
    ensures CowSoftAsciiStrEqSoftAsciiStr(cv, v) <==> v.EqCowSoftAsciiStr(cv)
    ensures v.EqSoftAsciiString(v.ToOwned())
    ensures v.EqCowSoftAsciiStr(OwnedSoft(v.ToOwned())) && v.EqCowSoftAsciiStr(BorrowedSoft(v))
    ensures v.EqCowStr(OwnedString(v.AsStr())) && v.EqCowStr(BorrowedStr(v.AsStr()))
  {
  }

  /** Views are equal exactly when their contents are (the derived `PartialEq`). */
  lemma ViewEqualityIsContentEquality(v: SoftAsciiStr, w: SoftAsciiStr)
    ensures v == w <==> v.AsStr() == w.AsStr()
  {
  }

  // ---------------------------------------------------------------------------
  // the unit tests of the view, as lemmas

  /** "❤" (U+2764) followed by " == <3". */
  function HeartExample(): Str {
    var heart: seq<u8> := [0xE2, 0x9D, 0xA4];
    var rest: seq<u8> := [0x20, 0x3D, 0x3D, 0x20, 0x3C, 0x33];
    OneCharIsValid(heart);
    AsciiIsValid(rest);
    ConcatIsValid(heart, rest);
    heart + rest
  }

  /** "↓" (U+2193). */
  function DownArrow(): Str {
    var arrow: seq<u8> := [0xE2, 0x86, 0x93];
    OneCharIsValid(arrow);
    arrow
  }

  /** "hy ho\x00\x01\x02\x03": control bytes are ASCII. */
  function HyHo(): Str {
    var s: seq<u8> := [0x68, 0x79, 0x20, 0x68, 0x6F, 0x00, 0x01, 0x02, 0x03];
    AsciiIsValid(s);
    s
  }

  /** "hy". */
  function Hy(): Str {
    var s: seq<u8> := [0x68, 0x79];
    AsciiIsValid(s);
    s
  }

  /** `from_str` accepts "hy ho\x00\x01\x02\x03" unchanged and rejects "↓". */
  lemma FromStrExamples()
    ensures SoftAsciiStr.FromStr(HyHo()).Ok? && SoftAsciiStr.FromStr(HyHo()).value.EqStr(HyHo())
    ensures SoftAsciiStr.FromStr(DownArrow()).Err?
  {
    assert DownArrow()[0] == 0xE2;
  }

  /** `from_unchecked` keeps "❤ == <3" as it is, although it is not ASCII. */
  lemma FromUncheckedExample()
    ensures SoftAsciiStr.FromUnchecked(HeartExample()).EqStr(HeartExample())
    ensures !SoftAsciiStr.FromUnchecked(HeartExample()).IsAscii()
  {
    assert HeartExample()[0] == 0xE2;
  }

  /**
   * `lines` on "a\nb\nc", "a\r\nb", "a\n" and "a\rb": line feeds and CR LF
   * pairs end lines, a final line feed opens no empty line, and a bare
   * carriage return stays in its line.
   */
  lemma LinesExamples()
    ensures StdStr.Lines([0x61, LF, 0x62, LF, 0x63]) == [[0x61], [0x62], [0x63]]
    ensures StdStr.Lines([0x61, CR, LF, 0x62]) == [[0x61], [0x62]]
    ensures StdStr.Lines([0x61, LF]) == [[0x61]]
    ensures StdStr.Lines([0x61, CR, 0x62]) == [[0x61, CR, 0x62]]
  {
    var abc: seq<u8> := [0x61, LF, 0x62, LF, 0x63];
    assert StdStr.LineEnd(abc, 5) == 5;
    assert StdStr.LineEnd(abc, 4) == 5 && abc[4..] == [0x63];
    assert StdStr.LinesFrom(abc, 4) == [[0x63]];
    assert StdStr.LineEnd(abc, 3) == 3 && StdStr.LineEnd(abc, 2) == 3 && abc[2..3] == [0x62];
    assert StdStr.LinesFrom(abc, 2) == [[0x62], [0x63]];
    assert StdStr.LineEnd(abc, 1) == 1 && StdStr.LineEnd(abc, 0) == 1 && abc[0..1] == [0x61];
    var crlf: seq<u8> := [0x61, CR, LF, 0x62];
    assert StdStr.LineEnd(crlf, 4) == 4;
    assert StdStr.LineEnd(crlf, 3) == 4 && crlf[3..] == [0x62];
    assert StdStr.LinesFrom(crlf, 3) == [[0x62]];
    assert StdStr.LineEnd(crlf, 2) == 2 && StdStr.LineEnd(crlf, 1) == 2 && StdStr.LineEnd(crlf, 0) == 2;
    assert crlf[0..1] == [0x61];
    var last: seq<u8> := [0x61, LF];
    assert StdStr.LineEnd(last, 1) == 1 && StdStr.LineEnd(last, 0) == 1 && last[0..1] == [0x61];
    assert StdStr.LinesFrom(last, 2) == [];
    var bare: seq<u8> := [0x61, CR, 0x62];
    assert StdStr.LineEnd(bare, 3) == 3 && StdStr.LineEnd(bare, 2) == 3;
    assert StdStr.LineEnd(bare, 1) == 3 && StdStr.LineEnd(bare, 0) == 3 && bare[0..] == bare;
  }

  /** Revalidation rejects "❤ == <3", handing it back, and accepts "hy" as it is. */
  lemma RevalidateExamples()
    ensures SoftAsciiStr.FromUnchecked(HeartExample()).RevalidateSoftConstraint().Err?
    ensures SoftAsciiStr.FromUnchecked(HeartExample()).RevalidateSoftConstraint().error.IntoSource() == HeartExample()
    ensures SoftAsciiStr.FromUnchecked(Hy()).RevalidateSoftConstraint().Ok?
    ensures SoftAsciiStr.FromUnchecked(Hy()).RevalidateSoftConstraint().value.EqStr(Hy())
  {
    assert HeartExample()[0] == 0xE2;
  }
}
