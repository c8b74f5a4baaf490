# soft-ascii-string: `SoftAsciiStr`, modelled in Dafny

`SoftAsciiStr` is a borrowed UTF-8 `str` that carries a *soft* US-ASCII
constraint: the content is expected to be ASCII, but this is checked only at two
points, the checked constructor `from_str` and `revalidate_soft_constraint`.
Every other operation runs the native `str` operation on the content and wraps
the result again without a check (`from_unchecked`): `split_at`, the range
indexes, the trims, `to_lowercase`/`to_uppercase`/`repeat` and the four
iterator adapters. The model shows that this unchecked re-wrapping never
breaks the constraint of a view that satisfied it, and states the checks, the
queries and the content equalities exactly.

Files (one module each):

- `rust_core.dfy`: `RustCore`, Rust's `Option` and `Result`.
- `utf8.dfy`: `Utf8`, bytes, valid UTF-8 after RFC 3629 (`Str`, the content
  of a `str` or `String`), `is_ascii`, `is_char_boundary`, `chars` and
  `char_indices`, and the lemmas that a cut at a char boundary leaves valid
  UTF-8 on both sides.
- `std_str.dfy`: `StdStr`, the `str` operations the view delegates to, in their
  ASCII meaning: the trims, case conversion, `repeat`, `lines`,
  `split_whitespace`.
- `soft_str.dfy`: `SoftStr`, the view `SoftAsciiStr` and its methods, the
  minimal wrappers `SoftAsciiString`, `SoftAsciiChar`, `FromSourceError`,
  `Cow<str>` and `Cow<SoftAsciiStr>`, the equality impls, and the laws
  relating them.
- `soft_iter.dfy`: `SoftIter`, the iterator adapters as classes. Each holds
  the items its wrapped `str` iterator has still to yield, and `Next` and
  `NextBack` consume them from the two ends.

A view is the datatype `SoftAsciiStr(inner: Str)`. The derived `PartialEq`
compares the wrapped content, which is Dafny's equality on that datatype.
A `usize` argument is a `nat`: no operation of the core does arithmetic on
one that could wrap. Where `str` panics (a cut that is not on a char
boundary, or that lies past the end), the model has a `requires`.

## Model

| member | source | states |
|---|---|---|
| `SoftStr.SoftAsciiStr.FromUnchecked` | src/soft_str.rs:59-61 | wraps any content, ASCII or not, and `as_str` gives it back unchanged |
| `SoftStr.FromUncheckedRoundTrip` | src/soft_str.rs:92-94 | `from_unchecked` and `as_str` are inverse in both directions |
| `SoftStr.SoftAsciiStr.FromStr` | src/soft_str.rs:74-80 | `Ok` exactly when every byte is below 0x80, holding the input as content; otherwise `Err` whose `into_source` is the input |
| `SoftStr.SoftAsciiStr.RevalidateSoftConstraint` | src/soft_str.rs:83-89 | `Ok` exactly when the view is ASCII, and then it is the same view; otherwise `Err` carrying `as_str()` |
| `SoftStr.SoftAsciiStr.AsStr` | src/soft_str.rs:92-94 | `as_str` gives the wrapped content, and that content determines the view |
| `SoftStr.SoftAsciiStr.AsBytes` | src/soft_str.rs:301-306 | `as_bytes` (and `AsRef<[u8]>`) gives the content's bytes, which are valid UTF-8 and ASCII exactly when the view is |
| `SoftStr.SoftAsciiStr.Len` | src/soft_str.rs:279 | `len` counts bytes, not chars, and is 0 exactly for empty content |
| `SoftStr.RevalidateIsDeferredFromStr` | src/soft_str.rs:83-89 | revalidating an unchecked view decides exactly what `from_str` decides on its content, with the same result |
| `SoftStr.RevalidateAfterFromStr` | src/soft_str.rs:74-89 | a view produced by a successful `from_str` passes revalidation, unchanged |
| `SoftStr.RevalidateIsIdempotent` | src/soft_str.rs:83-89 | a view that passed revalidation passes it again, as itself |
| `SoftStr.SoftAsciiStr.IsAscii` | src/soft_str.rs:277-286 | `is_ascii` holds exactly when `from_str` would accept the content |
| `SoftStr.SoftAsciiStr.IsEmpty` | src/soft_str.rs:277-286 | `is_empty` holds exactly when `len` is 0, and exactly when the view is the default one |
| `SoftStr.SoftAsciiStr.IsCharBoundary` | src/soft_str.rs:277-286 | an index is a boundary exactly when it is the length or an offset `char_indices` yields; false past the end |
| `SoftStr.SoftAsciiStr.Default` | src/soft_str.rs:308-313 | the default view is empty and ASCII |
| `SoftStr.SoftAsciiStr.SplitAt` | src/soft_str.rs:133-136 | at a char boundary `mid`: the left part has length `mid`, left then right is the content, and the view is ASCII exactly when both parts are |
| `SoftStr.SplitAtIsTwoIndexes` | src/soft_str.rs:133-136 | `split_at(mid)` is `(&v[..mid], &v[mid..])` |
| `SoftStr.SoftAsciiStr.IndexRange` | src/soft_str.rs:321-337 | `&v[a..b]` at char boundaries has length `b - a`, byte `i` is byte `a + i` of the view, it is a slice of the view, and it is ASCII when the view is |
| `SoftStr.SoftAsciiStr.IndexFrom` | src/soft_str.rs:321-337 | `&v[a..]` is `&v[a..len]` |
| `SoftStr.SoftAsciiStr.IndexTo` | src/soft_str.rs:321-337 | `&v[..b]` is `&v[0..b]` |
| `SoftStr.SoftAsciiStr.IndexFull` | src/soft_str.rs:321-337 | `&v[..]` is `&v[0..len]`, and is the view itself |
| `SoftStr.IndexOfIndex` | src/soft_str.rs:321-337 | a boundary of a range, shifted by the range's start, is a boundary of the view; cutting a range out of a range is cutting it out of the view |
| `SoftStr.SoftAsciiStr.TrimStart` | src/soft_str.rs:255-264 | the content of `trim_start` is std's `trim_start` of the view's content, a slice of it, and ASCII when the view is |
| `SoftStr.SoftAsciiStr.TrimEnd` | src/soft_str.rs:255-264 | the same for `trim_end` |
| `SoftStr.SoftAsciiStr.Trim` | src/soft_str.rs:255-264 | the same for `trim` |
| `SoftStr.SoftAsciiStr.ToLowercase` | src/soft_str.rs:215-233 | std's lowercase of the content, wrapped unchecked: same length, and ASCII exactly when the view is |
| `SoftStr.SoftAsciiStr.ToUppercase` | src/soft_str.rs:215-233 | std's uppercase of the content, wrapped unchecked: same length, and ASCII exactly when the view is |
| `SoftStr.SoftAsciiStr.Repeat` | src/soft_str.rs:215-233 | std's `repeat(n)` of the content, wrapped unchecked: length `n * len`, and ASCII when the view is |
| `SoftStr.RepeatLaws` | src/soft_str.rs:215-233 | `repeat(m + n)` is `repeat(m)` followed by `repeat(n)`; `repeat(1)` is the view's content; `repeat(0)` is empty |
| `SoftStr.SoftAsciiStr.ToOwned` | src/soft_str.rs:339-345 | the owned copy dereferences to the same view |
| `SoftStr.OwnedCopyKeepsConstraint` | src/soft_str.rs:339-345 | the owned copy passes revalidation exactly when the view does |
| `SoftStr.SoftAsciiStr.InnerStrMut` | src/soft_str.rs:177-179 | after writing same-length valid UTF-8 through the `&mut str`, the view holds what was written |
| `SoftStr.MutationCanBreakSoftConstraint` | src/soft_str.rs:177-179 | an ASCII view of two or more bytes can be made to fail revalidation by a write of valid UTF-8 through it, one that needs `unsafe` `as_bytes_mut` |
| `SoftStr.RewrapKeepsSoftConstraint` | src/soft_str.rs:133-337 | from a view that passes revalidation, every part of `split_at`, every range index, every trim, both case conversions and every `repeat` passes revalidation too |
| `SoftStr.SoftAsciiStr.EqSoftAsciiString` | src/soft_str.rs:347-357 | a view equals a `SoftAsciiString` exactly when their contents are equal |
| `SoftStr.SoftAsciiStr.EqStr` | src/soft_str.rs:389-393 | `PartialEq<str>` (and `PartialEq<String>`, :365-381) holds exactly when the view is the string wrapped unchecked |
| `SoftStr.StrEqSoftAsciiStr` | src/soft_str.rs:383-387 | `PartialEq<SoftAsciiStr> for str` (and for `String`, :359-375) agrees with the reverse comparison, so the pair of impls is symmetric |
| `SoftStr.SoftAsciiStr.EqCowStr` | src/soft_str.rs:425-429 | `PartialEq<Cow<str>>` holds exactly when the view is the `Cow`'s string wrapped unchecked, and for each case of the `Cow` it is the comparison with the string it holds |
| `SoftStr.CowStrEqSoftAsciiStr` | src/soft_str.rs:419-423 | `PartialEq<SoftAsciiStr> for Cow<str>` agrees with the reverse comparison and with comparing the dereferenced string |
| `SoftStr.SoftAsciiStr.EqCowSoftAsciiStr` | src/soft_str.rs:401-405 | `PartialEq<Cow<SoftAsciiStr>>` holds exactly when the `Cow` dereferences to this view; a borrowed `Cow` compares as its view, an owned one as its `SoftAsciiString` |
| `SoftStr.CowSoftAsciiStrEqSoftAsciiStr` | src/soft_str.rs:395-399 | `PartialEq<SoftAsciiStr> for Cow<SoftAsciiStr>` agrees with the reverse comparison and holds exactly when the `Cow` dereferences to the view |
| `SoftStr.EqualityIsContentEquality` | src/soft_str.rs:359-441 | against `str`, `String`, `Cow<str>` and `Cow<SoftAsciiStr>`, in both directions, equality is exactly content equality; a view equals its owned copy and both forms of `Cow` of it |
| `SoftStr.ViewEqualityIsContentEquality` | src/soft_str.rs:47-53 | the derived equality of two views is equality of their contents |
| `SoftStr.FromStrExamples` | src/soft_str.rs:688-694 | `from_str` accepts "hy ho\x00\x01\x02\x03" unchanged and rejects "↓" |
| `SoftStr.FromUncheckedExample` | src/soft_str.rs:697-701 | `from_unchecked` keeps "❤ == <3" unchanged, although it is not ASCII |
| `SoftStr.LinesExamples` | src/soft_str.rs:606-637 | `lines` cuts "a\nb\nc" into "a", "b", "c" and "a\r\nb" into "a", "b"; "a\n" gives only "a"; "a\rb" stays one line |
| `SoftStr.RevalidateExamples` | src/soft_str.rs:705-715 | revalidation of "❤ == <3" fails and hands it back; revalidation of "hy" succeeds with the same content |
| `StdStr.SliceOfAscii` | src/soft_str.rs:321-337 | every slice of ASCII content is ASCII, which is why the unchecked re-wrap of a slice is sound |
| `Utf8.WalkIsValidUtf8` | src/soft_str.rs:47-53 | the content check, every char start begins a complete RFC 3629 sequence, agrees with decoding char by char from the start to the end |
| `Utf8.BoundaryPrefix` | src/soft_str.rs:133-136 | the part before a char boundary is valid UTF-8 |
| `Utf8.BoundarySuffix` | src/soft_str.rs:133-136 | the part from a char boundary on is valid UTF-8 |
| `Utf8.BoundaryIsOffset` | src/soft_str.rs:277-286 | inside a string, an index is a char boundary exactly when `char_indices` yields it as an offset |
| `Utf8.SliceIsValid` | src/soft_str.rs:321-337 | the bytes between two char boundaries are valid UTF-8, so every range index yields a `str` |
| `SoftStr.IndexBoundaryShifts` | src/soft_str.rs:321-337 | a char boundary of `&v[a..b]`, shifted by `a`, is a char boundary of the view |
| `StdStr.CutOfCut` | src/soft_str.rs:321-337 | cutting `c..d` out of the cut `a..b` is cutting `a + c..a + d` out of the content |
| `StdStr.SliceOfSlice` | src/soft_str.rs:321-337 | a slice of a slice of the content is a slice of the content |
| `StdStr.TrimStart` | src/soft_str.rs:255-264 | `trim_start` is a suffix of the content, what it drops is all whitespace, and it does not start with whitespace |
| `StdStr.TrimEnd` | src/soft_str.rs:255-264 | `trim_end` is a prefix of the content, what it drops is all whitespace, and it does not end with whitespace |
| `StdStr.Trim` | src/soft_str.rs:255-264 | `trim` starts at the first non-whitespace byte, what it drops at either end is whitespace, and neither of its ends is whitespace |
| `StdStr.TrimsAreSlices` | src/soft_str.rs:255-264 | each of the three trims is a slice of the content |
| `StdStr.TrimStartIsIdempotent` | src/soft_str.rs:255-264 | `trim_start` twice is `trim_start` once |
| `StdStr.TrimEndIsIdempotent` | src/soft_str.rs:255-264 | `trim_end` twice is `trim_end` once |
| `StdStr.TrimIsIdempotent` | src/soft_str.rs:255-264 | `trim` twice is `trim` once |
| `StdStr.ToLowercase` | src/soft_str.rs:215-233 | same length, no uppercase ASCII letter left, each byte unchanged or an uppercase letter moved to lowercase, ASCII exactly when the input is |
| `StdStr.ToUppercase` | src/soft_str.rs:215-233 | same length, no lowercase ASCII letter left, each byte unchanged or a lowercase letter moved to uppercase, ASCII exactly when the input is |
| `StdStr.CaseConversionLaws` | src/soft_str.rs:215-233 | each conversion is idempotent, and either one after the other equals that one alone |
| `Utf8.ConcatIsValid` | src/soft_str.rs:215-233 | valid UTF-8 followed by valid UTF-8 is valid UTF-8, so `repeat` yields a `String` |
| `Utf8.AsciiRewriteIsValid` | src/soft_str.rs:215-233 | rewriting ASCII bytes into ASCII bytes keeps UTF-8 valid, so the case conversions yield a `String` |
| `StdStr.Repeat` | src/soft_str.rs:215-233 | `repeat(n)` has `n` times the length |
| `StdStr.RepeatAdds` | src/soft_str.rs:215-233 | `repeat(m + n)` is `repeat(m)` followed by `repeat(n)` |
| `StdStr.RepeatBlock` | src/soft_str.rs:215-233 | every block `k < n` of `repeat(n)` is a copy of the content |
| `StdStr.RepeatOfAscii` | src/soft_str.rs:215-233 | repeating ASCII content gives ASCII content |
| `Utf8.CharsOfAscii` | src/soft_str.rs:515-522 | content is ASCII exactly when every char `chars` yields is ASCII, and then char `k` is byte `k` |
| `Utf8.CharIndicesFrom` | src/soft_str.rs:564-573 | `char_indices` yields as many pairs as `chars` yields chars, pair `k` holding char `k` of `chars` and an offset inside the content |
| `Utf8.DecodeAt` | src/soft_str.rs:515-522 | the char decoded at a char start is ASCII exactly when its lead byte is below 0x80, and is then that byte |
| `Utf8.OffsetsOfAscii` | src/soft_str.rs:515-522 | on ASCII bytes every byte starts a char, so the offsets are the byte indexes in order |
| `Utf8.AsciiLeadsCoverAll` | src/soft_str.rs:515-522 | when every char start holds a byte below 0x80, every byte is below 0x80 |
| `SoftIter.SoftAsciiChars.From` | src/soft_str.rs:507-513 | the adapter starts with all the chars of the view |
| `SoftIter.SoftAsciiChars.Next` | src/soft_str.rs:518-522 | yields the first remaining char of the wrapped `Chars`, re-wrapped, and drops it; `None` when none remain; ASCII when the view is |
| `SoftIter.SoftAsciiChars.NextBack` | src/soft_str.rs:540-545 | yields the last remaining char, re-wrapped, and drops it; `None` when none remain; ASCII when the view is |
| `SoftIter.SoftAsciiCharIndices.From` | src/soft_str.rs:556-562 | the adapter starts with all the (offset, char) pairs of the view |
| `SoftIter.SoftAsciiCharIndices.ItemFacts` | src/soft_str.rs:564-573 | every offset yielded is a char boundary of the view, and every char is ASCII when the view is |
| `SoftIter.SoftAsciiCharIndices.Next` | src/soft_str.rs:567-572 | yields the first remaining pair with its offset unchanged and its char re-wrapped, and drops it |
| `SoftIter.SoftAsciiCharIndices.NextBack` | src/soft_str.rs:592-599 | yields the last remaining pair with its offset unchanged and its char re-wrapped, and drops it |
| `SoftIter.SoftAsciiLines.From` | src/soft_str.rs:610-616 | the adapter starts with all the lines of the view |
| `SoftIter.SoftAsciiLines.ItemFacts` | src/soft_str.rs:618-624 | every line is a slice of the view without a line feed, ASCII when the view is |
| `SoftIter.SoftAsciiLines.Next` | src/soft_str.rs:621-624 | yields the first remaining line as an unchecked view and drops it; it passes revalidation when the view does |
| `SoftIter.SoftAsciiLines.NextBack` | src/soft_str.rs:632-637 | yields the last remaining line as an unchecked view and drops it; it passes revalidation when the view does |
| `StdStr.LinesAreStrs` | src/soft_str.rs:606-637 | every line is valid UTF-8, a `str` of its own |
| `StdStr.LinesAreSlices` | src/soft_str.rs:606-637 | every line is a slice of the text and holds no line feed |
| `StdStr.LinesRoundTrip` | src/soft_str.rs:606-637 | for every text, the lines each followed by a line feed give back the text with each CR LF written as LF and a final line feed added if it was missing; without carriage returns, the text itself |
| `StdStr.DropCrSplits` | src/soft_str.rs:606-637 | writing CR LF as LF can be done piece by piece wherever the cut does not split a CR LF pair |
| `SoftIter.SoftAsciiSplitWhitespace.From` | src/soft_str.rs:649-655 | the adapter starts with all the words of the view |
| `SoftIter.SoftAsciiSplitWhitespace.ItemFacts` | src/soft_str.rs:657-664 | every word is a non-empty slice of the view with no whitespace, ASCII when the view is |
| `SoftIter.SoftAsciiSplitWhitespace.Next` | src/soft_str.rs:660-663 | yields the first remaining word as an unchecked view and drops it; it passes revalidation when the view does |
| `SoftIter.SoftAsciiSplitWhitespace.NextBack` | src/soft_str.rs:666-671 | yields the last remaining word as an unchecked view and drops it; it passes revalidation when the view does |
| `StdStr.WordsAreStrs` | src/soft_str.rs:644-671 | every word is valid UTF-8, a `str` of its own |
| `StdStr.SplitWhitespaceWords` | src/soft_str.rs:644-671 | every word is non-empty, a slice of the text, and free of whitespace |
| `StdStr.SplitWhitespaceLosesOnlyWhitespace` | src/soft_str.rs:644-671 | the words joined together are the text with its whitespace removed |

## Left out

- Unicode case mapping and Unicode whitespace: `to_lowercase`, `to_uppercase`, the trims and `split_whitespace` are modelled in their ASCII meaning. Non-ASCII bytes pass case conversion unchanged and never count as whitespace. Whitespace is `char::is_whitespace` restricted to ASCII: 0x09 to 0x0D and 0x20.
- `StdStr.ToLowercase` and `StdStr.ToUppercase`: on ASCII content, which is what the soft constraint is about, they are exact. On non-ASCII content they differ from std, which maps non-ASCII letters too and may change the length.
- `StdStr.ToLowercase`, `StdStr.ToUppercase`, `SoftStr.SoftAsciiStr.ToLowercase`, `SoftStr.SoftAsciiStr.ToUppercase`: "the result is ASCII only when the input is" holds for the ASCII-only maps but not for std. U+212A KELVIN SIGN lowercases to ASCII `k`, and U+017F and U+0131 uppercase to `S` and `I`.
- `StdStr.CaseConversionLaws`: the laws that mix the two conversions hold for the ASCII-only maps but not for std on non-ASCII text. "ß" uppercases to "SS", which lowercases to "ss", not "ß". On ASCII content std obeys all of them.
- `StdStr.Trim`, `StdStr.TrimStart`, `StdStr.TrimEnd`, `StdStr.SplitWhitespace`: these do not strip or split at non-ASCII Unicode whitespace (such as U+00A0 or U+3000). Std does.
- `repeat`: the capacity-overflow panic for a huge `n` is not modelled, because lengths are unbounded naturals.
- `lines` follows the current std rules. It splits after each `\n`, drops that `\n` and one `\r` right before it, keeps a bare `\r`, and does not yield an empty line after a final `\n`.
- Memory layout: `repr(transparent)`, the unsafe reference casts in `from_unchecked` and `from_unchecked_mut`, and `from_boxed_str`, `into_boxed_str` and `into_soft_ascii_string`. These are layout facts, not behaviour. `from_unchecked` is the identity on content, and so is `from_unchecked_mut`.
- `as_ptr` and `encode_utf16`: a raw memory address, and a UTF-16 encoder that is not part of this model.
- `ToSocketAddrs`: it resolves names through the operating system.
- The `AsRef<OsStr>`/`AsRef<Path>` projections and the `OsStr`/`OsString` equalities: platform string types.
- `Display` and `parse`: foreign `fmt` and `FromStr` machinery.
- `slice_unchecked`, `get_unchecked` and the sealed `TempSliceIndexHelper` trait: these are unsafe, or exist only to support them. The deprecated aliases `from_str_unchecked`, `trim_left` and `trim_right` are left out too.
- The derived `PartialOrd`, `Ord`, `Hash` and `Debug`, and the iterators' `Clone` and `Debug`.
- `size_hint`, `count` and `last` on the iterator adapters, which only forward to the wrapped iterator.
- The `&SoftAsciiStr` and `SoftAsciiStr` forms of each `PartialEq` impl are one function each. `str` and `String` are both `Str`. Each `Cow` is a two-case datatype that dereferences to its content.
- `PartialEq<SoftAsciiStr> for SoftAsciiString` (the reverse of `EqSoftAsciiString`) is defined in `src/soft_string.rs`, which is not part of this model.
- `SoftAsciiString`, `SoftAsciiChar` and `FromSourceError` are minimal wrappers around their content. Their own files are not part of this model.
- `inner_str_mut`: modelled as the view's content after a write through the returned `&mut str`, as any valid UTF-8 of the same length. That is an upper bound. Safe code reaches only sub-slices and the in-place ASCII case changes, which keep ASCII content ASCII. A non-ASCII write such as the one in `SoftStr.MutationCanBreakSoftConstraint` needs `unsafe` `as_bytes_mut`. Aliasing and the borrow itself are not modelled.
- The iterator adapters keep the wrapped iterator's remaining items as a sequence. Its internal byte cursor is not modelled.
