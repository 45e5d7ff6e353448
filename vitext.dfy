/** The pure text operations of the editor: `get_text_sel`, the three word
    motions nested in `normal_key` (`get_w`, `get_b`, `get_e`), their repetition
    by a count, and the character deletion loop of `x`.  Each motion is a
    `while` loop proved against a recursive function, and each function is
    characterised by a predicate written independently of the loop. */
module ViText {
  import opened PySeq

  function Min(x: int, y: int): int
  {
    if x <= y then x else y
  }

  function Max(x: int, y: int): int
  {
    if x <= y then y else x
  }

  /** The word separators (`WS`): space and tab. */
  predicate IsBlank(c: char)
  {
    c == ' ' || c == '\t'
  }

  // ---------------------------------------------------------------------------
  // get_text_sel

  /** The part of `text` between two positions given in either order, and what
      is left around it: `(text[lo:hi], text[:lo] + text[hi:])` with Python's
      slicing. */
  function TextSel(text: string, p1: int, p2: int): (r: (string, string))
    ensures |r.0| <= |text|
    ensures p1 == p2 ==> r.0 == []
    ensures 0 <= p1 <= |text| && 0 <= p2 <= |text| ==> |r.0| + |r.1| == |text|
  {
    var lo, hi := if p2 < p1 then p2 else p1, if p2 < p1 then p1 else p2;
    (Slice(text, lo, hi), Take(text, lo) + Drop(text, hi))
  }

  /** Within the text, the selection is the plain slice between the two
      positions and what is left is the text with that slice cut out. */
  lemma TextSelParts(text: string, p1: int, p2: int)
    requires 0 <= p1 <= |text| && 0 <= p2 <= |text|
    ensures var lo, hi := Min(p1, p2), Max(p1, p2);
      TextSel(text, p1, p2) == (text[lo..hi], text[..lo] + text[hi..])
  {
  }

  /** The order in which the two positions are given does not matter, for
      any positions at all. */
  lemma TextSelSymmetric(text: string, p1: int, p2: int)
    ensures TextSel(text, p1, p2) == TextSel(text, p2, p1)
  {
  }

  /** Within the text, the two parts share out its characters, and putting the
      selection back where it was cut rebuilds the text. */
  lemma TextSelRebuilds(text: string, p1: int, p2: int)
    requires 0 <= p1 <= |text| && 0 <= p2 <= |text|
    ensures var (inside, outside) := TextSel(text, p1, p2);
      var lo := Min(p1, p2);
      && |inside| + |outside| == |text|
      && outside[..lo] + inside + outside[lo..] == text
  {
    var lo, hi := Min(p1, p2), Max(p1, p2);
    TextSelParts(text, p1, p2);
    var outside := text[..lo] + text[hi..];
    assert outside[..lo] == text[..lo] && outside[lo..] == text[hi..];
    assert text == text[..lo] + text[lo..hi] + text[hi..];
  }

  // ---------------------------------------------------------------------------
  // Runs of blank and non-blank characters

  /** From `i`, step forward over characters whose blankness is `blank`,
      stopping at the last index (one loop of `get_w`). */
  function SkipForward(text: string, i: int, blank: bool): (r: int)
    requires 0 <= i < |text|
    ensures i <= r < |text|
    ensures forall k :: i <= k < r ==> IsBlank(text[k]) == blank
    ensures r < |text| - 1 ==> IsBlank(text[r]) != blank
    decreases |text| - i
  {
    if IsBlank(text[i]) == blank && i < |text| - 1 then SkipForward(text, i + 1, blank) else i
  }

  /** From `i`, step back while the character before the position has
      blankness `blank`, stopping at 0 (one loop of `get_b`).  The character
      is read first, as `text[i - 1]`, which at `i == 0` is Python's `text[-1]`. */
  function SkipBackward(text: string, i: int, blank: bool): (r: int)
    requires 0 <= i < |text|
    ensures 0 <= r <= i
    ensures forall k :: r <= k < i ==> IsBlank(text[k]) == blank
    ensures 0 < r ==> IsBlank(text[r - 1]) != blank
    decreases i
  {
    if IsBlank(At(text, i - 1)) == blank && i > 0 then SkipBackward(text, i - 1, blank) else i
  }

  /** From `i`, step forward while the NEXT character has blankness `blank`,
      stopping one before the last index (one loop of `get_e`). */
  function SkipAhead(text: string, i: int, blank: bool): (r: int)
    requires 0 <= i < |text| - 1
    ensures i <= r < |text| - 1
    ensures forall k :: i < k <= r ==> IsBlank(text[k]) == blank
    ensures r < |text| - 2 ==> IsBlank(text[r + 1]) != blank
    decreases |text| - i
  {
    if IsBlank(text[i + 1]) == blank && i + 1 < |text| - 1 then SkipAhead(text, i + 1, blank) else i
  }

  // ---------------------------------------------------------------------------
  // The three motions

  /** `get_w`: skip the rest of the word, then the blanks after it. */
  function WordForward(text: string, pos: int): (r: int)
    requires 0 <= pos < |text|
    ensures pos <= r < |text|
  {
    SkipForward(text, SkipForward(text, pos, false), true)
  }

  /** `get_b`: skip the blanks before the cursor, then the word before them. */
  function WordBackward(text: string, pos: int): (r: int)
    requires 0 <= pos < |text|
    ensures 0 <= r <= pos
  {
    SkipBackward(text, SkipBackward(text, pos, true), false)
  }

  /** `get_e`: skip the blanks ahead, then the word ahead.  Reading
      `text[pos + 1]` needs `pos` before the last index. */
  function WordEnd(text: string, pos: int): (r: int)
    requires 0 <= pos < |text| - 1
    ensures pos <= r < |text| - 1
  {
    SkipAhead(text, SkipAhead(text, pos, true), false)
  }

  /** Where `w` may land from `pos`: the characters from `pos` up to `r` are
      non-blanks followed by blanks, and unless `r` is the last index it is the
      first character of the next word. */
  ghost predicate IsWordForward(text: string, pos: int, r: int)
    requires 0 <= pos < |text|
  {
    && pos <= r < |text|
    && (forall i, j :: pos <= i < j < r && IsBlank(text[i]) ==> IsBlank(text[j]))
    && (r < |text| - 1 ==> pos < r && IsBlank(text[r - 1]) && !IsBlank(text[r]))
  }

  /** Where `b` may land from `pos`: the characters from `r` up to `pos` are
      non-blanks followed by blanks, and unless `r` is 0 it is the first
      character of a word. */
  ghost predicate IsWordBackward(text: string, pos: int, r: int)
    requires 0 <= pos < |text|
  {
    && 0 <= r <= pos
    && (forall i, j :: r <= i < j < pos && IsBlank(text[i]) ==> IsBlank(text[j]))
    && (0 < r ==> r < pos && IsBlank(text[r - 1]) && !IsBlank(text[r]))
  }

  /** Where `e` may land from `pos`: the characters after `pos` up to `r` are
      blanks followed by non-blanks, `r` is before the last index, and unless
      it is the one before that it is the last character of a word. */
  ghost predicate IsWordEnd(text: string, pos: int, r: int)
    requires 0 <= pos < |text| - 1
  {
    && pos <= r < |text| - 1
    && (forall i, j :: pos < i < j <= r && !IsBlank(text[i]) ==> !IsBlank(text[j]))
    && (r < |text| - 2 ==> pos < r && !IsBlank(text[r]) && IsBlank(text[r + 1]))
  }

  /** `get_w` lands exactly where `IsWordForward` allows. */
  lemma {:induction false} WordForwardIff(text: string, pos: int, r: int)
    requires 0 <= pos < |text|
    ensures WordForward(text, pos) == r <==> IsWordForward(text, pos, r)
  {
    var p1 := SkipForward(text, pos, false);
    var w := SkipForward(text, p1, true);
    assert IsWordForward(text, pos, w) by {
      forall i, j | pos <= i < j < w && IsBlank(text[i]) ensures IsBlank(text[j]) {
        assert p1 <= i;
      }
      if w < |text| - 1 {
        assert IsBlank(text[p1]);
      }
    }
  }

  /** `get_b` lands exactly where `IsWordBackward` allows. */
  lemma {:induction false} WordBackwardIff(text: string, pos: int, r: int)
    requires 0 <= pos < |text|
    ensures WordBackward(text, pos) == r <==> IsWordBackward(text, pos, r)
  {
    var p1 := SkipBackward(text, pos, true);
    var b := SkipBackward(text, p1, false);
    assert IsWordBackward(text, pos, b) by {
      forall i, j | b <= i < j < pos && IsBlank(text[i]) ensures IsBlank(text[j]) {
        assert p1 <= i;
      }
      if 0 < b {
        assert b != p1;
      }
    }
  }

  /** `get_e` lands exactly where `IsWordEnd` allows. */
  lemma {:induction false} WordEndIff(text: string, pos: int, r: int)
    requires 0 <= pos < |text| - 1
    ensures WordEnd(text, pos) == r <==> IsWordEnd(text, pos, r)
  {
    var p1 := SkipAhead(text, pos, true);
    var d := SkipAhead(text, p1, false);
    assert IsWordEnd(text, pos, d) by {
      forall i, j | pos < i < j <= d && !IsBlank(text[i]) ensures !IsBlank(text[j]) {
        assert p1 < i;
      }
      if d < |text| - 2 {
        assert d != p1;
      }
    }
  }

  // ---------------------------------------------------------------------------
  // Counts: `for i in range(m): pos = get_x(pos)`

  /** `w` applied `n` times, each from the previous result. */
  function WordForwardN(text: string, pos: int, n: nat): (r: int)
    requires 0 <= pos < |text|
    ensures pos <= r < |text|
  {
    if n == 0 then pos else WordForward(text, WordForwardN(text, pos, n - 1))
  }

  /** `b` applied `n` times, each from the previous result. */
  function WordBackwardN(text: string, pos: int, n: nat): (r: int)
    requires 0 <= pos < |text|
    ensures 0 <= r <= pos
  {
    if n == 0 then pos else WordBackward(text, WordBackwardN(text, pos, n - 1))
  }

  /** `e` applied `n` times, each from the previous result; only the first
      step needs `pos` before the last index, later ones start at most at the
      index before it. */
  function WordEndN(text: string, pos: int, n: nat): (r: int)
    requires 0 <= pos < |text| - 1
    ensures pos <= r < |text| - 1
  {
    if n == 0 then pos else WordEnd(text, WordEndN(text, pos, n - 1))
  }

  /** Once `w` reaches the last index it stays there. */
  lemma {:induction false} WordForwardNAtLast(text: string, n: nat)
    requires 0 < |text|
    ensures WordForwardN(text, |text| - 1, n) == |text| - 1
  {
    if n > 0 {
      WordForwardNAtLast(text, n - 1);
    }
  }

  /** Once `b` reaches 0 it stays there. */
  lemma {:induction false} WordBackwardNAtZero(text: string, n: nat)
    requires 0 < |text|
    ensures WordBackwardN(text, 0, n) == 0
  {
    if n > 0 {
      WordBackwardNAtZero(text, n - 1);
    }
  }

  // ---------------------------------------------------------------------------
  // The loops as the source writes them

  /** `get_w(pos)` */
  method GetW(text: string, pos: int) returns (r: int)
    requires 0 <= pos < |text|
    ensures r == WordForward(text, pos)
  {
    var last := |text| - 1;
    r := pos;
    while !IsBlank(text[r]) && r < last
      invariant pos <= r <= last
      invariant SkipForward(text, r, false) == SkipForward(text, pos, false)
      decreases last - r
    {
      r := r + 1;
    }
    ghost var p1 := r;
    while IsBlank(text[r]) && r < last
      invariant p1 <= r <= last
      invariant SkipForward(text, r, true) == SkipForward(text, p1, true)
      decreases last - r
    {
      r := r + 1;
    }
  }

  /** `get_b(pos)`; the loop condition reads `text[pos - 1]` before testing
      `pos > 0`, as the source does. */
  method GetB(text: string, pos: int) returns (r: int)
    requires 0 <= pos < |text|
    ensures r == WordBackward(text, pos)
  {
    r := pos;
    while IsBlank(At(text, r - 1)) && r > 0
      invariant 0 <= r <= pos
      invariant SkipBackward(text, r, true) == SkipBackward(text, pos, true)
      decreases r
    {
      r := r - 1;
    }
    ghost var p1 := r;
    while !IsBlank(At(text, r - 1)) && r > 0
      invariant 0 <= r <= p1
      invariant SkipBackward(text, r, false) == SkipBackward(text, p1, false)
      decreases r
    {
      r := r - 1;
    }
  }

  /** `get_e(pos)` */
  method GetE(text: string, pos: int) returns (r: int)
    requires 0 <= pos < |text| - 1
    ensures r == WordEnd(text, pos)
  {
    var last := |text| - 1;
    r := pos;
    while IsBlank(text[r + 1]) && r + 1 < last
      invariant pos <= r < last
      invariant SkipAhead(text, r, true) == SkipAhead(text, pos, true)
      decreases last - r
    {
      r := r + 1;
    }
    ghost var p1 := r;
    while !IsBlank(text[r + 1]) && r + 1 < last
      invariant p1 <= r < last
      invariant SkipAhead(text, r, false) == SkipAhead(text, p1, false)
      decreases last - r
    {
      r := r + 1;
    }
  }

  /** `for i in range(m): pos = get_w(pos)` */
  method RepeatW(text: string, pos: int, m: nat) returns (r: int)
    requires 0 <= pos < |text|
    ensures r == WordForwardN(text, pos, m)
  {
    r := pos;
    for i := 0 to m
      invariant 0 <= r < |text| && r == WordForwardN(text, pos, i)
    {
      r := GetW(text, r);
    }
  }

  /** `for i in range(m): pos = get_b(pos)` */
  method RepeatB(text: string, pos: int, m: nat) returns (r: int)
    requires 0 <= pos < |text|
    ensures r == WordBackwardN(text, pos, m)
  {
    r := pos;
    for i := 0 to m
      invariant 0 <= r < |text| && r == WordBackwardN(text, pos, i)
    {
      r := GetB(text, r);
    }
  }

  /** `for i in range(m): pos = get_e(pos)` */
  method RepeatE(text: string, pos: int, m: nat) returns (r: int)
    requires 0 <= pos < |text| - 1
    ensures r == WordEndN(text, pos, m)
  {
    r := pos;
    for i := 0 to m
      invariant 0 <= r < |text| && r == WordEndN(text, pos, i)
    {
      r := GetE(text, r);
    }
  }

  // ---------------------------------------------------------------------------
  // The deletion loop of `x`

  /** `n` times `text = get_text_sel(text, p, p + 1)[1]`.  From a start
      `p >= 0` the text never grows. */
  function DeleteRun(text: string, p: int, n: nat): (r: string)
    ensures 0 <= p ==> |r| <= |text|
  {
    if n == 0 then text else TextSel(DeleteRun(text, p, n - 1), p, p + 1).1
  }

  /** One deletion at `p` from a text whose characters from `p` up to `b`
      are already gone removes one more, unless none are left after `p`. */
  lemma DeleteOneMore(text: string, p: int, b: int, d: string)
    requires 0 <= p < |text| && p <= b <= |text| && d == text[..p] + text[b..]
    ensures TextSel(d, p, p + 1).1 == text[..p] + text[Min(b + 1, |text|)..]
  {
    if b == |text| {
      assert d == text[..p];
    } else {
      TextSelParts(d, p, p + 1);
      assert d[..p] == text[..p];
      assert d[p + 1..] == text[b + 1..];
    }
  }

  /** A deletion at or past the end leaves the text as it is. */
  lemma DeletePastEnd(text: string, p: int)
    requires |text| <= p
    ensures TextSel(text, p, p + 1).1 == text
  {
    assert Take(text, p) == text;
  }

  /** From a start `p >= 0`, `n` single deletions remove the `n` characters
      from `p` on (fewer when the text ends first). */
  lemma DeleteRunRemoves(text: string, p: int, n: nat)
    requires 0 <= p
    ensures DeleteRun(text, p, n) == text[..Min(p, |text|)] + text[Min(p + n, |text|)..]
  {
    if p < |text| {
      DeleteRunInside(text, p, n);
    } else {
      DeleteRunPastEnd(text, p, n);
      assert text == text[..|text|] + text[|text|..];
    }
  }

  lemma {:induction false} DeleteRunInside(text: string, p: int, n: nat)
    requires 0 <= p < |text|
    ensures DeleteRun(text, p, n) == text[..p] + text[Min(p + n, |text|)..]
  {
    if n == 0 {
      assert text == text[..p] + text[p..];
    } else {
      DeleteRunInside(text, p, n - 1);
      DeleteOneMore(text, p, Min(p + n - 1, |text|), DeleteRun(text, p, n - 1));
    }
  }

  lemma {:induction false} DeleteRunPastEnd(text: string, p: int, n: nat)
    requires |text| <= p
    ensures DeleteRun(text, p, n) == text
  {
    if n > 0 {
      DeleteRunPastEnd(text, p, n - 1);
      DeletePastEnd(text, p);
    }
  }

  /** With a negative start, which `x` reaches only on a text of at most one
      character, the deletions leave the text as it was. */
  lemma {:induction false} DeleteRunShortText(text: string, p: int, n: nat)
    requires -2 <= p < 0 && |text| <= 1
    ensures DeleteRun(text, p, n) == text
  {
    if n > 0 {
      DeleteRunShortText(text, p, n - 1);
    }
  }

  /** `for i in range(m): text = get_text_sel(text, pos, pos + 1)[1]` */
  method DeleteChars(text: string, p: int, m: nat) returns (t: string)
    ensures t == DeleteRun(text, p, m)
  {
    t := text;
    for i := 0 to m
      invariant t == DeleteRun(text, p, i)
    {
      t := TextSel(t, p, p + 1).1;
    }
  }
}
