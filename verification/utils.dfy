/**
 * `center_text` of utils3.py: a text written over the middle of a baseline,
 * with a blank on each side, using Python's slicing rules for the two
 * pieces of baseline around it.
 */
module Utils {

  /** `s[:n]`: the first n characters; a negative n drops the last -n; clamped to the string. */
  function SliceTo(s: string, n: int): (r: string)
    ensures r <= s
    ensures 0 <= n <= |s| ==> |r| == n
    ensures n < 0 ==> |r| == if |s| + n > 0 then |s| + n else 0
  {
    if n >= 0 then s[..if n <= |s| then n else |s|]
    else s[..if |s| + n > 0 then |s| + n else 0]
  }

  /** `s[m:]`: from index m on; a negative m keeps the last -m characters; clamped to the string. */
  function SliceFrom(s: string, m: int): (r: string)
    ensures |r| <= |s| && r == s[|s| - |r|..]
    ensures m < 0 && -m <= |s| ==> |r| == -m
    ensures 0 <= m <= |s| ==> |r| == |s| - m
  {
    if m >= 0 then s[if m <= |s| then m else |s|..]
    else s[if |s| + m > 0 then |s| + m else 0..]
  }

  /** `int(x / 2)` on an integer: the half truncated toward zero. */
  function HalfTowardZero(x: int): (h: int)
    ensures x >= 0 ==> 0 <= h && x == 2 * h + x % 2
    ensures x < 0 ==> h <= 0 && h == -((-x) / 2)
  {
    if x >= 0 then x / 2 else -((-x) / 2)
  }

  /** The room the baseline leaves beside the text and its two blanks. */
  function Gap(baseline: string, text: string): int {
    |baseline| - (|text| + 2)
  }

  /** The number of baseline characters kept on the left. */
  function LeftPad(baseline: string, text: string): int {
    HalfTowardZero(Gap(baseline, text))
  }

  /** The number of baseline characters kept on the right. */
  function RightPad(baseline: string, text: string): int {
    Gap(baseline, text) - LeftPad(baseline, text)
  }

  /** `center_text(baseline, text)`. */
  function CenterText(baseline: string, text: string): (r: string)
    ensures |r| >= |text| + 2
  {
    SliceTo(baseline, LeftPad(baseline, text)) + " " + text + " " + SliceFrom(baseline, -RightPad(baseline, text))
  }

  /** When the text fits, an odd leftover character goes to the right. */
  lemma PadsBalanced(baseline: string, text: string)
    requires Gap(baseline, text) >= 0
    ensures 0 <= LeftPad(baseline, text) <= RightPad(baseline, text) <= LeftPad(baseline, text) + 1
    ensures LeftPad(baseline, text) + RightPad(baseline, text) == Gap(baseline, text)
  {
  }

  /**
   * With room to spare, the text replaces the middle of the baseline: the
   * result is as long as the baseline, keeps its first LeftPad and last
   * RightPad characters, and holds the blank-framed text in between.
   */
  lemma CenteredOverBaseline(baseline: string, text: string)
    requires Gap(baseline, text) >= 1
    ensures var r, a1, a2 := CenterText(baseline, text), LeftPad(baseline, text), RightPad(baseline, text);
      && |r| == |baseline|
      && r[..a1] == baseline[..a1]
      && r[a1..a1 + |text| + 2] == " " + text + " "
      && r[|r| - a2..] == baseline[|baseline| - a2..]
  {
    var a1, a2 := LeftPad(baseline, text), RightPad(baseline, text);
    var left, right := SliceTo(baseline, a1), SliceFrom(baseline, -a2);
    var mid := " " + text + " ";
    PadsBalanced(baseline, text);
    assert left == baseline[..a1];
    assert right == baseline[|baseline| - a2..];
    ThreePieces(left, mid, right);
  }

  /** The three pieces of a concatenation can be read back by slicing. */
  lemma ThreePieces(left: string, mid: string, right: string)
    ensures var r := left + mid + right;
      && r[..|left|] == left
      && r[|left|..|left| + |mid|] == mid
      && r[|r| - |right|..] == right
  {
    var r := left + mid + right;
    assert r[..|left|] == left;
    assert r[|left|..|left| + |mid|] == mid;
    assert r[|r| - |right|..] == right;
  }

  /**
   * With no room, `baseline[-0:]` is the whole baseline, so the baseline
   * follows the text instead of being cut.
   */
  lemma NoRoomAppendsBaseline(baseline: string, text: string)
    requires Gap(baseline, text) == 0
    ensures CenterText(baseline, text) == " " + text + " " + baseline
  {
    assert LeftPad(baseline, text) == 0 && RightPad(baseline, text) == 0;
    assert SliceTo(baseline, 0) == [];
    assert SliceFrom(baseline, 0) == baseline;
    assert [] + " " + text + " " + baseline == " " + text + " " + baseline;
  }

  /**
   * Whatever the lengths, the result is a prefix of the baseline, the
   * blank-framed text, and a suffix of the baseline.
   */
  lemma AlwaysFramed(baseline: string, text: string)
    ensures exists p, q ::
      p <= baseline && |q| <= |baseline| && q == baseline[|baseline| - |q|..] &&
      CenterText(baseline, text) == p + " " + text + " " + q
  {
    var p := SliceTo(baseline, LeftPad(baseline, text));
    var q := SliceFrom(baseline, -RightPad(baseline, text));
    assert CenterText(baseline, text) == p + " " + text + " " + q;
  }

  /** A text longer than the room: both baseline pieces are cut from the far end and overlap. */
  lemma TooLongExample()
    ensures CenterText("abc", "xyz") == "ab xyz bc"
  {
    assert LeftPad("abc", "xyz") == -1 && RightPad("abc", "xyz") == -1;
  }
}
