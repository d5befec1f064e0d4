/**
 * `truncate` from utils/helper.ts: a string longer than `maxLength` becomes
 * its first `startChars` characters, a run of dots, and its last `endChars`
 * characters; the dots are added one at a time until the two ends together
 * reach `maxLength`.
 */
module Truncation {
  import opened Wrappers
  import opened Text

  /** The part kept in front: `text.substring(0, startChars)`. */
  function Head(text: string, startChars: int): string {
    text[..Clamp(startChars, |text|)]
  }

  /** The part kept at the end: `text.substring(text.length - endChars, text.length)`. */
  function Tail(text: string, endChars: int): string {
    text[|text| - Clamp(endChars, |text|)..]
  }

  /** A string made only of dots. */
  predicate AllDots(s: string) {
    forall i :: 0 <= i < |s| ==> s[i] == '.'
  }

  /** `n` dots. */
  function Dots(n: nat): (r: string)
    ensures |r| == n && AllDots(r)
  {
    if n == 0 then "" else Dots(n - 1) + "."
  }

  /**
   * The result `truncate` is meant to have, written without the loop: a
   * long text keeps its two ends with just enough dots between them to
   * reach `maxLength`, and none when the ends alone already reach it.
   */
  function Truncated(text: string, startChars: int, endChars: int, maxLength: int): string {
    if |text| <= maxLength then text
    else
      var head := Head(text, startChars);
      var tail := Tail(text, endChars);
      head + Dots(Max(0, maxLength - (|head| + |tail|))) + tail
  }

  /** The loop of `truncate`: dots appended to `start` while the two ends stay short of `maxLength`. */
  method PadWithDots(start: string, end: string, maxLength: int) returns (padded: string)
    ensures padded == start + Dots(Max(0, maxLength - (|start| + |end|)))
  {
    padded := start;
    ghost var added: nat := 0;
    while |padded| + |end| < maxLength
      invariant padded == start + Dots(added)
      invariant |start| + added + |end| <= Max(maxLength, |start| + |end|)
      decreases maxLength - (|padded| + |end|)
    {
      assert padded + "." == start + (Dots(added) + ".");
      padded := padded + ".";
      added := added + 1;
    }
  }

  /** `truncate`. */
  method Truncate(text: string, startChars: int, endChars: int, maxLength: int) returns (r: string)
    ensures r == Truncated(text, startChars, endChars, maxLength)
  {
    if |text| > maxLength {
      var start := Substring(text, 0, startChars);
      var end := Substring(text, |text| - endChars, |text|);
      SubstringHead(text, startChars);
      SubstringTail(text, endChars);
      start := PadWithDots(start, end, maxLength);
      return start + end;
    }
    return text;
  }

  /**
   * What `truncate` returns: a short enough text unchanged; a longer one as
   * its head, then only dots, then its tail, dots filling up to `maxLength`
   * and no further.
   */
  lemma TruncatedShape(text: string, startChars: int, endChars: int, maxLength: int)
    ensures |text| <= maxLength ==> Truncated(text, startChars, endChars, maxLength) == text
    ensures |text| > maxLength ==>
              var r := Truncated(text, startChars, endChars, maxLength);
              var head := Head(text, startChars);
              var tail := Tail(text, endChars);
              && |r| == Max(maxLength, |head| + |tail|)
              && r[..|head|] == head
              && AllDots(r[|head|..|r| - |tail|])
              && r[|r| - |tail|..] == tail
    ensures |text| > maxLength && Clamp(startChars, |text|) + Clamp(endChars, |text|) <= maxLength ==>
              |Truncated(text, startChars, endChars, maxLength)| == maxLength
  {
    if |text| > maxLength {
      var head := Head(text, startChars);
      var tail := Tail(text, endChars);
      PaddedShape(head, Dots(Max(0, maxLength - (|head| + |tail|))), tail);
    }
  }

  /** The pieces of `head + dots + tail` sit where they were put. */
  lemma PaddedShape(head: string, dots: string, tail: string)
    requires AllDots(dots)
    ensures var r := head + dots + tail;
            && r[..|head|] == head
            && AllDots(r[|head|..|r| - |tail|])
            && r[|r| - |tail|..] == tail
  {
    var r := head + dots + tail;
    assert r[|head|..|r| - |tail|] == dots;
  }
}
