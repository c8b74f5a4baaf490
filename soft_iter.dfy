/**
 * The iterator adapters of `SoftAsciiStr`. Each holds the `str` iterator it
 * wraps, modelled as the sequence of items that iterator has still to yield,
 * and re-wraps every item it passes on without a check. The ghost window
 * `front..back` records where that sequence sits within all the items of the
 * wrapped iterator, so that `next` is seen to yield them front to back and
 * `next_back` back to front.
 */
module SoftIter {
  import opened RustCore
  import opened Utf8
  import StdStr
  import opened SoftStr

  /** `SoftAsciiChars`: `str::Chars`, each char re-wrapped as a `SoftAsciiChar`. */
  class SoftAsciiChars {
    /** The chars the wrapped `str::Chars` has still to yield. */
    var inner: seq<char>
    /** The view iterated. */
    ghost const source: SoftAsciiStr
    /** `inner` is `Chars(source)[front..back]`. */
    ghost var front: nat
    ghost var back: nat

    ghost predicate Valid()
      reads this
    {
      front <= back <= |Chars(source.AsStr())| && inner == Chars(source.AsStr())[front..back]
    }

    /** `From<&SoftAsciiStr>` (what `chars` returns): all the chars of the view. */
    constructor From(s: SoftAsciiStr)
      ensures Valid()
      ensures source == s && front == 0 && back == |Chars(s.AsStr())|
      ensures inner == Chars(s.AsStr())
    {
      source := s;
      inner := Chars(s.AsStr());
      front := 0;
      back := |Chars(s.AsStr())|;
    }

    /** `Iterator::next`: the first remaining char, re-wrapped. */
    method Next() returns (item: Option<SoftAsciiChar>)
      requires Valid()
      modifies this
      ensures Valid() && back == old(back)
      ensures |old(inner)| == 0 ==> item == None && inner == old(inner) && front == old(front)
      ensures |old(inner)| > 0 ==>
                item == Some(SoftAsciiChar(old(inner)[0])) && inner == old(inner)[1..] && front == old(front) + 1
      ensures item.Some? ==> item.value.ch == Chars(source.AsStr())[old(front)]
      ensures item.Some? && source.IsAscii() ==> IsAsciiChar(item.value.ch)
    {
      if |inner| == 0 {
        item := None;
      } else {
        CharsOfAscii(source.AsStr());
        item := Some(SoftAsciiChar(inner[0]));
        inner := inner[1..];
        front := front + 1;
      }
    }

    /** `DoubleEndedIterator::next_back`: the last remaining char, re-wrapped. */
    method NextBack() returns (item: Option<SoftAsciiChar>)
      requires Valid()
      modifies this
      ensures Valid() && front == old(front)
      ensures |old(inner)| == 0 ==> item == None && inner == old(inner) && back == old(back)
      ensures |old(inner)| > 0 ==>
                item == Some(SoftAsciiChar(old(inner)[|old(inner)| - 1])) &&
                inner == old(inner)[..|old(inner)| - 1] && back == old(back) - 1
      ensures item.Some? ==> item.value.ch == Chars(source.AsStr())[old(back) - 1]
      ensures item.Some? && source.IsAscii() ==> IsAsciiChar(item.value.ch)
    {
      if |inner| == 0 {
        item := None;
      } else {
        CharsOfAscii(source.AsStr());
        item := Some(SoftAsciiChar(inner[|inner| - 1]));
        inner := inner[..|inner| - 1];
        back := back - 1;
      }
    }
  }

  /** `SoftAsciiCharIndices`: `str::CharIndices`, each char re-wrapped, each offset kept. */
  class SoftAsciiCharIndices {
    /** The (offset, char) pairs the wrapped `str::CharIndices` has still to yield. */
    var inner: seq<(nat, char)>
    /** The view iterated. */
    ghost const source: SoftAsciiStr
    /** `inner` is `CharIndices(source)[front..back]`. */
    ghost var front: nat
    ghost var back: nat

    ghost predicate Valid()
      reads this
    {
      front <= back <= |CharIndices(source.AsStr())| && inner == CharIndices(source.AsStr())[front..back]
    }

    /** `From<&SoftAsciiStr>` (what `char_indices` returns): all the pairs of the view. */
    constructor From(s: SoftAsciiStr)
      ensures Valid()
      ensures source == s && front == 0 && back == |CharIndices(s.AsStr())|
      ensures inner == CharIndices(s.AsStr())
    {
      source := s;
      inner := CharIndices(s.AsStr());
      front := 0;
      back := |CharIndices(s.AsStr())|;
    }

    /** The pair at `k`: its offset is a char boundary of the view, and its char is ASCII when the view is. */
    lemma ItemFacts(k: nat)
      requires Valid() && k < |CharIndices(source.AsStr())|
      ensures source.IsCharBoundary(CharIndices(source.AsStr())[k].0)
      ensures source.IsAscii() ==> IsAsciiChar(CharIndices(source.AsStr())[k].1)
    {
      var s := source.AsStr();
      var ci := CharIndices(s);
      BoundaryIsOffset(s, ci[k].0);
      CharsOfAscii(s);
    }

    /** `Iterator::next`: the first remaining pair, its char re-wrapped. */
    method Next() returns (item: Option<(nat, SoftAsciiChar)>)
      requires Valid()
      modifies this
      ensures Valid() && back == old(back)
      ensures |old(inner)| == 0 ==> item == None && inner == old(inner) && front == old(front)
      ensures |old(inner)| > 0 ==>
                item == Some((old(inner)[0].0, SoftAsciiChar(old(inner)[0].1))) &&
                inner == old(inner)[1..] && front == old(front) + 1
      ensures item.Some? ==> item.value.0 == CharIndices(source.AsStr())[old(front)].0
      ensures item.Some? ==> source.IsCharBoundary(item.value.0)
      ensures item.Some? && source.IsAscii() ==> IsAsciiChar(item.value.1.ch)
    {
      if |inner| == 0 {
        item := None;
      } else {
        ItemFacts(front);
        item := Some((inner[0].0, SoftAsciiChar(inner[0].1)));
        inner := inner[1..];
        front := front + 1;
      }
    }

    /** `DoubleEndedIterator::next_back`: the last remaining pair, its char re-wrapped. */
    method NextBack() returns (item: Option<(nat, SoftAsciiChar)>)
      requires Valid()
      modifies this
      ensures Valid() && front == old(front)
      ensures |old(inner)| == 0 ==> item == None && inner == old(inner) && back == old(back)
      ensures |old(inner)| > 0 ==>
                item == Some((old(inner)[|old(inner)| - 1].0, SoftAsciiChar(old(inner)[|old(inner)| - 1].1))) &&
                inner == old(inner)[..|old(inner)| - 1] && back == old(back) - 1
      ensures item.Some? ==> item.value.0 == CharIndices(source.AsStr())[old(back) - 1].0
      ensures item.Some? ==> source.IsCharBoundary(item.value.0)
      ensures item.Some? && source.IsAscii() ==> IsAsciiChar(item.value.1.ch)
    {
      if |inner| == 0 {
        item := None;
      } else {
        ItemFacts(back - 1);
        item := Some((inner[|inner| - 1].0, SoftAsciiChar(inner[|inner| - 1].1)));
        inner := inner[..|inner| - 1];
        back := back - 1;
      }
    }
  }

  /** `SoftAsciiLines`: `str::Lines`, each line re-wrapped as a view. */
  class SoftAsciiLines {
    /** The lines the wrapped `str::Lines` has still to yield. */
    var inner: seq<Str>
    /** The view iterated. */
    ghost const source: SoftAsciiStr
    /** `inner` is `Lines(source)[front..back]`. */
    ghost var front: nat
    ghost var back: nat

    ghost predicate Valid()
      reads this
    {
      front <= back <= |StdStr.Lines(source.AsStr())| && inner == StdStr.Lines(source.AsStr())[front..back]
    }

    /** `From<&SoftAsciiStr>` (what `lines` returns): all the lines of the view. */
    constructor From(s: SoftAsciiStr)
      ensures Valid()
      ensures source == s && front == 0 && back == |StdStr.Lines(s.AsStr())|
      ensures inner == StdStr.Lines(s.AsStr())
    {
      source := s;
      StdStr.LinesAreStrs(s.AsStr());
      inner := StdStr.Lines(s.AsStr());
      front := 0;
      back := |StdStr.Lines(s.AsStr())|;
    }

    /** The line at `k` is a slice of the view holding no line feed, ASCII when the view is. */
    lemma ItemFacts(k: nat)
      requires Valid() && k < |StdStr.Lines(source.AsStr())|
      ensures StdStr.IsSliceOf(StdStr.Lines(source.AsStr())[k], source.AsStr())
      ensures LF !in StdStr.Lines(source.AsStr())[k]
      ensures source.IsAscii() ==> Utf8.IsAscii(StdStr.Lines(source.AsStr())[k])
    {
      var s := source.AsStr();
      StdStr.LinesAreSlices(s);
      if Utf8.IsAscii(s) {
        StdStr.SliceOfAscii(StdStr.Lines(s)[k], s);
      }
    }

    /** `Iterator::next`: the first remaining line, re-wrapped unchecked. */
    method Next() returns (item: Option<SoftAsciiStr>)
      requires Valid()
      modifies this
      ensures Valid() && back == old(back)
      ensures |old(inner)| == 0 ==> item == None && inner == old(inner) && front == old(front)
      ensures |old(inner)| > 0 ==>
                item == Some(SoftAsciiStr.FromUnchecked(old(inner)[0])) && inner == old(inner)[1..] && front == old(front) + 1
      ensures item.Some? ==> StdStr.IsSliceOf(item.value.AsStr(), source.AsStr()) && LF !in item.value.AsStr()
      ensures item.Some? && source.IsAscii() ==> item.value.RevalidateSoftConstraint().Ok?
    {
      if |inner| == 0 {
        item := None;
      } else {
        ItemFacts(front);
        item := Some(SoftAsciiStr.FromUnchecked(inner[0]));
        inner := inner[1..];
        front := front + 1;
      }
    }

    /** `DoubleEndedIterator::next_back`: the last remaining line, re-wrapped unchecked. */
    method NextBack() returns (item: Option<SoftAsciiStr>)
      requires Valid()
      modifies this
      ensures Valid() && front == old(front)
      ensures |old(inner)| == 0 ==> item == None && inner == old(inner) && back == old(back)
      ensures |old(inner)| > 0 ==>
                item == Some(SoftAsciiStr.FromUnchecked(old(inner)[|old(inner)| - 1])) &&
                inner == old(inner)[..|old(inner)| - 1] && back == old(back) - 1
      ensures item.Some? ==> StdStr.IsSliceOf(item.value.AsStr(), source.AsStr()) && LF !in item.value.AsStr()
      ensures item.Some? && source.IsAscii() ==> item.value.RevalidateSoftConstraint().Ok?
    {
      if |inner| == 0 {
        item := None;
      } else {
        ItemFacts(back - 1);
        item := Some(SoftAsciiStr.FromUnchecked(inner[|inner| - 1]));
        inner := inner[..|inner| - 1];
        back := back - 1;
      }
    }
  }

  /** `SoftAsciiSplitWhitespace`: `str::SplitWhitespace`, each word re-wrapped as a view. */
  class SoftAsciiSplitWhitespace {
    /** The words the wrapped `str::SplitWhitespace` has still to yield. */
    var inner: seq<Str>
    /** The view iterated. */
    ghost const source: SoftAsciiStr
    /** `inner` is `SplitWhitespace(source)[front..back]`. */
    ghost var front: nat
    ghost var back: nat

    ghost predicate Valid()
      reads this
    {
      front <= back <= |StdStr.SplitWhitespace(source.AsStr())| &&
      inner == StdStr.SplitWhitespace(source.AsStr())[front..back]
    }

    /** `From<&SoftAsciiStr>` (what `split_whitespace` returns): all the words of the view. */
    constructor From(s: SoftAsciiStr)
      ensures Valid()
      ensures source == s && front == 0 && back == |StdStr.SplitWhitespace(s.AsStr())|
      ensures inner == StdStr.SplitWhitespace(s.AsStr())
    {
      source := s;
      StdStr.WordsAreStrs(s.AsStr());
      inner := StdStr.SplitWhitespace(s.AsStr());
      front := 0;
      back := |StdStr.SplitWhitespace(s.AsStr())|;
    }

    /** The word at `k` is a non-empty slice of the view free of whitespace, ASCII when the view is. */
    lemma ItemFacts(k: nat)
      requires Valid() && k < |StdStr.SplitWhitespace(source.AsStr())|
      ensures StdStr.IsWord(StdStr.SplitWhitespace(source.AsStr())[k])
      ensures StdStr.IsSliceOf(StdStr.SplitWhitespace(source.AsStr())[k], source.AsStr())
      ensures source.IsAscii() ==> Utf8.IsAscii(StdStr.SplitWhitespace(source.AsStr())[k])
    {
      var s := source.AsStr();
      StdStr.SplitWhitespaceWords(s);
      assert StdStr.IsWord(StdStr.SplitWhitespace(s)[k]);
      if Utf8.IsAscii(s) {
        StdStr.SliceOfAscii(StdStr.SplitWhitespace(s)[k], s);
      }
    }

    /** `Iterator::next`: the first remaining word, re-wrapped unchecked. */
    method Next() returns (item: Option<SoftAsciiStr>)
      requires Valid()
      modifies this
      ensures Valid() && back == old(back)
      ensures |old(inner)| == 0 ==> item == None && inner == old(inner) && front == old(front)
      ensures |old(inner)| > 0 ==>
                item == Some(SoftAsciiStr.FromUnchecked(old(inner)[0])) && inner == old(inner)[1..] && front == old(front) + 1
      ensures item.Some? ==> StdStr.IsWord(item.value.AsBytes()) && StdStr.IsSliceOf(item.value.AsStr(), source.AsStr())
      ensures item.Some? && source.IsAscii() ==> item.value.RevalidateSoftConstraint().Ok?
    {
      if |inner| == 0 {
        item := None;
      } else {
        ghost var words := StdStr.SplitWhitespace(source.AsStr());
        var word := inner[0];
        assert inner == words[front..back];
        assert word == words[front];
        ItemFacts(front);
        item := Some(SoftAsciiStr.FromUnchecked(word));
        inner := inner[1..];
        front := front + 1;
      }
    }

    /** `DoubleEndedIterator::next_back`: the last remaining word, re-wrapped unchecked. */
    method NextBack() returns (item: Option<SoftAsciiStr>)
      requires Valid()
      modifies this
      ensures Valid() && front == old(front)
      ensures |old(inner)| == 0 ==> item == None && inner == old(inner) && back == old(back)
      ensures |old(inner)| > 0 ==>
                item == Some(SoftAsciiStr.FromUnchecked(old(inner)[|old(inner)| - 1])) &&
                inner == old(inner)[..|old(inner)| - 1] && back == old(back) - 1
      ensures item.Some? ==> StdStr.IsWord(item.value.AsBytes()) && StdStr.IsSliceOf(item.value.AsStr(), source.AsStr())
      ensures item.Some? && source.IsAscii() ==> item.value.RevalidateSoftConstraint().Ok?
    {
      if |inner| == 0 {
        item := None;
      } else {
        ghost var words := StdStr.SplitWhitespace(source.AsStr());
        var word := inner[|inner| - 1];
        assert inner == words[front..back] && |inner| == back - front;
        assert word == words[back - 1];
        ItemFacts(back - 1);
        item := Some(SoftAsciiStr.FromUnchecked(word));
        inner := inner[..|inner| - 1];
        back := back - 1;
      }
    }
  }
}
