/** What the editor promises, proved about the functions of ViSpec: the
    operators and their motions, `x`, paste, undo and redo, the count, the
    modes, the keys handed back to the host, and tab completion. */
module ViProperties {
  import opened PySeq
  import opened ViText
  import opened ViSpec

  // ---------------------------------------------------------------------------
  // Operators

  /** The motion keys an operator acts with. */
  predicate IsOperatorMotion(key: Key)
  {
    key in {Char('w'), Char('W'), Char('b'), Char('B'), Char('0'), Char('$')}
  }

  /** Where a motion of an operator ends, starting from `pos`. */
  function MotionEnd(text: string, pos: int, m: nat, key: Key): int
    requires 0 <= pos < |text| && IsOperatorMotion(key)
  {
    if key == Char('w') || key == Char('W') then WordForwardN(text, pos, m)
    else if key == Char('b') || key == Char('B') then WordBackwardN(text, pos, m)
    else if key == Char('0') then 0
    else |text|
  }

  /** The state `normal_key` works on after its first lines: the cursor
      moved back onto the text and the undo checkpoint taken. */
  function Entry(e: Editor): (r: Editor)
    requires Valid(e)
    ensures Entered(r, Cursor(e))
    ensures r.text == e.text && r.normal == e.normal && r.op == e.op && r.m == e.m
    ensures r.completion == e.completion && r.undo[r.undoLvl] == r.text
    ensures r.undo == if e.undo[e.undoLvl] != e.text then e.undo + [e.text] else e.undo
    ensures r.undoLvl == if e.undo[e.undoLvl] != e.text then |e.undo| else e.undoLvl
  {
    Checkpoint(if e.pos >= |e.text| then SetPos(e, Cursor(e)) else e)
  }

  /** `normal_key` is the operator branch or the command branch run on the
      entry state. */
  lemma NormalKeyEntry(e: Editor, yank: string, key: Key)
    requires Valid(e)
    ensures NormalKey(e, yank, key) ==
      if e.op.Some? then OperatorMotion(Entry(e), yank, key, Cursor(e))
      else Command(Entry(e), yank, key, Cursor(e))
  {
  }

  /** On a non-empty text every operator motion is `Operate` on the range
      from the cursor to the end of the motion, with the cursor put at the
      start of that range. */
  lemma MotionSelects(e: Editor, yank: string, key: Key, pos: int)
    requires Entered(e, pos) && e.op.Some? && |e.text| > 0 && IsOperatorMotion(key)
    ensures var pos2 := MotionEnd(e.text, pos, e.m, key);
      OperatorMotion(e, yank, key, pos) == Operate(SetPos(e, Min(pos, pos2)), e.op.value, TextSel(e.text, pos, pos2))
  {
    var pos2 := MotionEnd(e.text, pos, e.m, key);
    assert SetPos(e, pos) == e;
    if key == Char('b') || key == Char('B') {
      TextSelSymmetric(e.text, pos2, pos);
    } else if key == Char('0') {
      TextSelSymmetric(e.text, 0, pos);
    }
  }

  /** An operator on the range between `p1` and `p2`, with the cursor at the
      start of the range. */
  lemma OperateRange(e: Editor, op: Operator, p1: int, p2: int)
    requires Valid(e) && 0 <= p1 <= |e.text| && 0 <= p2 <= |e.text| && e.pos == Min(p1, p2)
    ensures var s := Operate(e, op, TextSel(e.text, p1, p2));
      var lo, hi := Min(p1, p2), Max(p1, p2);
      && s.result == Consumed
      && s.yank == e.text[lo..hi]
      && s.ed.text == (if op == Yank then e.text else e.text[..lo] + e.text[hi..])
      && s.ed.pos == lo
      && s.ed.op == None && s.ed.m == e.m
      && s.ed.normal == (op != Change && e.normal)
  {
    TextSelParts(e.text, p1, p2);
  }

  /** An operator with a motion, on a non-empty text: the register takes the
      text between the cursor and the end of the motion, `c` and `d` cut it
      out while `y` leaves the text alone, the cursor goes to the start of
      that range, the operator is cleared, the count is kept, and only `c`
      leaves Normal mode. */
  lemma OperatorMotionRange(e: Editor, yank: string, key: Key)
    requires Valid(e) && e.op.Some? && |e.text| > 0 && IsOperatorMotion(key)
    ensures var s := NormalKey(e, yank, key);
      var pos := Cursor(e);
      var pos2 := MotionEnd(e.text, pos, e.m, key);
      var lo, hi := Min(pos, pos2), Max(pos, pos2);
      && s.result == Consumed
      && s.yank == e.text[lo..hi]
      && s.ed.text == (if e.op == Some(Yank) then e.text else e.text[..lo] + e.text[hi..])
      && s.ed.pos == lo
      && s.ed.op == None && s.ed.m == e.m
      && s.ed.normal == (e.op != Some(Change) && e.normal)
  {
    var pos, e1 := Cursor(e), Entry(e);
    var pos2 := MotionEnd(e.text, pos, e.m, key);
    NormalKeyEntry(e, yank, key);
    MotionSelects(e1, yank, key, pos);
    OperateRange(SetPos(e1, Min(pos, pos2)), e1.op.value, pos, pos2);
  }

  /** With an operator pending, `0` and `$` on an empty text do not raise:
      the selection between -1 and 0 is empty, so the register is emptied,
      and the operator ends as with any other motion. */
  lemma OperatorOnEmptyText(e: Editor, yank: string, key: Key)
    requires Valid(e) && e.op.Some? && |e.text| == 0 && key in {Char('0'), Char('$')}
    ensures var s := NormalKey(e, yank, key);
      && s.result == Consumed && s.yank == "" && s.ed.text == "" && s.ed.pos == 0
      && s.ed.op == None && s.ed.m == e.m
      && s.ed.normal == (e.op != Some(Change) && e.normal)
  {
    NormalKeyEntry(e, yank, key);
  }

  /** With a key that is not one of its motions, the operator is dropped:
      text, register and count stay, and a pending `c` still enters Insert
      mode. */
  lemma OperatorOtherKey(e: Editor, yank: string, key: Key)
    requires Valid(e) && e.op.Some? && !IsOperatorMotion(key)
    ensures var s := NormalKey(e, yank, key);
      && s.result == Consumed
      && s.ed.text == e.text && s.yank == yank
      && s.ed.op == None && s.ed.m == e.m
      && s.ed.normal == (e.op != Some(Change) && e.normal)
  {
    NormalKeyEntry(e, yank, key);
  }

  // ---------------------------------------------------------------------------
  // call_vi and the keys that enter Insert mode

  /** `call_vi` with `0` or `$`, with or without an operator, never raises
      and always ends in Insert mode with no operator pending; without an
      operator it keeps the text and the register, and from a text that is
      its current snapshot it leaves the history as it was. */
  lemma CallViLands(e: Editor, yank: string, key: Key, op: Option<Operator>)
    requires Valid(e) && (key == Char('0') || key == Char('$'))
    ensures var s := CallVi(e, yank, key, op);
      && s.result == Consumed && !s.ed.normal && s.ed.op == None
      && s.ed.m == (if op.Some? then e.m else 1)
      && (op.None? ==> s.ed.text == e.text && s.yank == yank)
      && (e.undo[e.undoLvl] == e.text ==> s.ed.undo == e.undo && s.ed.undoLvl == e.undoLvl)
      && (op.None? ==> s.ed.pos == if key == Char('0') then 0 else Max(|e.text| - 1, 0))
  {
    var e0 := e.(normal := true, op := op);
    NormalKeyEntry(e0, yank, key);
    if |e.text| > 0 && op.Some? {
      OperatorMotionRange(e0, yank, key);
    }
  }

  /** `call_vi('a')` moves the cursor one to the right, at most to the end,
      and ends in Insert mode; text, register and history stay as they were
      when the text is its current snapshot. */
  lemma CallViAppends(e: Editor, yank: string)
    requires Valid(e)
    ensures var s := CallVi(e, yank, Char('a'), None);
      && s.result == Consumed && !s.ed.normal && s.ed.op == None && s.ed.m == 1
      && s.ed.text == e.text && s.yank == yank
      && (e.undo[e.undoLvl] == e.text ==> s.ed.undo == e.undo && s.ed.undoLvl == e.undoLvl)
      && s.ed.pos == Min(Max(Cursor(e), 0) + 1, |e.text|)
  {
    NormalKeyEntry(e.(normal := true, op := None), yank, Char('a'));
  }

  /** `i` enters Insert mode where the cursor is; `I` first goes to the
      start of the text; `a` moves one to the right; `A` goes past the end.
      None of them changes the text or the register, and the count goes
      back to 1. */
  lemma InsertModeKeys(e: Editor, yank: string, key: Key)
    requires Valid(e) && e.op.None? && key in {Char('i'), Char('I'), Char('a'), Char('A')}
    ensures var s := NormalKey(e, yank, key);
      && s.result == Consumed && !s.ed.normal && s.ed.op == None && s.ed.m == 1
      && s.ed.text == e.text && s.yank == yank
      && s.ed.pos == (
        if key == Char('i') then Max(Cursor(e), 0)
        else if key == Char('I') then 0
        else if key == Char('a') then Min(Max(Cursor(e), 0) + 1, |e.text|)
        else |e.text|)
  {
    var e1 := Entry(e);
    NormalKeyEntry(e, yank, key);
    if key == Char('I') {
      CallViLands(e1, yank, Char('0'), None);
    } else if key == Char('A') {
      CallViLands(e1, yank, Char('$'), None);
      var s1 := CallVi(e1, yank, Char('$'), None);
      CallViAppends(s1.ed, s1.yank);
    }
  }

  /** `call_vi` with an operator and `0` or `$` on an empty text empties the
      register and returns to Insert mode. */
  lemma CallViOnEmptyText(e: Editor, yank: string, key: Key, op: Operator)
    requires Valid(e) && |e.text| == 0 && key in {Char('0'), Char('$')}
    ensures var s := CallVi(e, yank, key, Some(op));
      && s.result == Consumed && !s.ed.normal && s.ed.op == None
      && s.yank == "" && s.ed.text == "" && s.ed.pos == 0
  {
    OperatorOnEmptyText(e.(normal := true, op := Some(op)), yank, key);
  }

  /** `C` cuts from the cursor to the end into the register and enters
      Insert mode; on an empty text it empties the register. */
  lemma ChangeToEnd(e: Editor, yank: string)
    requires Valid(e) && e.op.None?
    ensures var s := NormalKey(e, yank, Char('C'));
      var p := Max(Cursor(e), 0);
      && s.result == Consumed && !s.ed.normal && s.ed.op == None && s.ed.m == 1
      && s.ed.text == e.text[..p] && s.yank == e.text[p..]
      && s.ed.pos == p
  {
    var s1 := CallVi(Entry(e), yank, Char('$'), Some(Change));
    NormalKeyEntry(e, yank, Char('C'));
    assert NormalKey(e, yank, Char('C')) == DoneAfter(s1);
    if |e.text| == 0 {
      CallViOnEmptyText(Entry(e), yank, Char('$'), Change);
    } else {
      CallViOperator(Entry(e), yank, Char('$'), Change);
      assert e.text[..Cursor(e)] + e.text[|e.text|..] == e.text[..Cursor(e)];
    }
  }

  // ---------------------------------------------------------------------------
  // Cursor motions

  /** `h`, `l`, `0` and `$`, given the local `pos` of `normal_key`: they
      never raise and move only the cursor. */
  lemma StepMotionLands(e: Editor, yank: string, key: Key, pos: int)
    requires Entered(e, pos) && key in {Char('h'), Char('l'), Char('0'), Char('$')}
    ensures var s := MoveCommand(e, yank, key, pos);
      var last := |e.text| - 1;
      && s.ed.text == e.text && s.yank == yank && s.ed.op == e.op && s.ed.normal == e.normal
      && s.ed.completion == e.completion
      && s.result == Consumed && s.ed.m == 1
      && (key == Char('h') ==> s.ed.pos == Max(pos - e.m, 0))
      && (key == Char('l') ==> s.ed.pos == if pos < last then Min(pos + e.m, |e.text|) else e.pos)
      && (key == Char('0') ==> s.ed.pos == 0)
      && (key == Char('$') ==> s.ed.pos == Max(last, 0))
  {
  }

  /** `w`, given the local `pos` of `normal_key`: it moves only the cursor,
      by the count's worth of word starts, and raises exactly on an empty
      text. */
  lemma ForwardMotionLands(e: Editor, yank: string, key: Key, pos: int)
    requires Entered(e, pos) && (key == Char('w') || key == Char('W'))
    ensures var s := MoveCommand(e, yank, key, pos);
      && s.ed.text == e.text && s.yank == yank && s.ed.op == e.op && s.ed.normal == e.normal
      && s.ed.completion == e.completion
      && (s.result == Raised <==> |e.text| == 0)
      && (s.result == Consumed ==> s.ed.m == 1 && s.ed.pos == WordForwardN(e.text, pos, e.m))
  {
  }

  /** `b`, given the local `pos` of `normal_key`: it moves only the cursor,
      back by the count's worth of word starts, and raises exactly on an
      empty text. */
  lemma BackwardMotionLands(e: Editor, yank: string, key: Key, pos: int)
    requires Entered(e, pos) && (key == Char('b') || key == Char('B'))
    ensures var s := MoveCommand(e, yank, key, pos);
      && s.ed.text == e.text && s.yank == yank && s.ed.op == e.op && s.ed.normal == e.normal
      && s.ed.completion == e.completion
      && (s.result == Raised <==> |e.text| == 0)
      && (s.result == Consumed ==> s.ed.m == 1 && s.ed.pos == WordBackwardN(e.text, pos, e.m))
  {
  }

  /** `e`, given the local `pos` of `normal_key`: it moves only the cursor,
      by the count's worth of word ends, and raises exactly when it starts on
      the last index (on an empty text, -1). */
  lemma EndMotionLands(e: Editor, yank: string, key: Key, pos: int)
    requires Entered(e, pos) && (key == Char('e') || key == Char('E'))
    ensures var s := MoveCommand(e, yank, key, pos);
      && s.ed.text == e.text && s.yank == yank && s.ed.op == e.op && s.ed.normal == e.normal
      && s.ed.completion == e.completion
      && (s.result == Raised <==> pos == |e.text| - 1)
      && (s.result == Consumed ==> s.ed.m == 1 && s.ed.pos == WordEndN(e.text, pos, e.m))
  {
  }

  /** The motion keys reach `MoveCommand` unchanged. */
  lemma NormalKeyMove(e: Editor, yank: string, key: Key)
    requires Valid(e) && e.op.None? && key in {Char('h'), Char('l'), Char('0'), Char('$'), Char('w'), Char('W'), Char('b'), Char('B'), Char('e'), Char('E')}
    ensures NormalKey(e, yank, key) == MoveCommand(Entry(e), yank, key, Cursor(e))
  {
    NormalKeyEntry(e, yank, key);
  }

  /** In Normal mode with no operator pending, `h`, `l`, `0` and `$` move
      only the cursor and never raise: `h` and `l` by the count, clipped into
      the text (`l` only from before the last character, which lets it reach
      the end of the text), `0` and `$` to the first and last character. */
  lemma CursorSteps(e: Editor, yank: string, key: Key)
    requires Valid(e) && e.op.None? && key in {Char('h'), Char('l'), Char('0'), Char('$')}
    ensures var s := NormalKey(e, yank, key);
      var p, last := Cursor(e), |e.text| - 1;
      && s.ed.text == e.text && s.yank == yank && s.ed.op == None && s.ed.normal == e.normal
      && s.ed.completion == e.completion
      && s.ed.undo == Entry(e).undo && s.ed.undoLvl == Entry(e).undoLvl
      && s.result == Consumed && s.ed.m == 1
      && (key == Char('h') ==> s.ed.pos == Max(p - e.m, 0))
      && (key == Char('l') ==> s.ed.pos == if p < last then Min(p + e.m, |e.text|) else Max(p, 0))
      && (key == Char('0') ==> s.ed.pos == 0)
      && (key == Char('$') ==> s.ed.pos == Max(last, 0))
  {
    NormalKeyMove(e, yank, key);
    StepMotionLands(Entry(e), yank, key, Cursor(e));
  }

  /** In Normal mode with no operator pending, `w`, `b` and `e` move only the
      cursor, by the count's worth of words; `w` and `b` raise on an empty
      text and `e` on the last character. */
  lemma WordMotions(e: Editor, yank: string, key: Key)
    requires Valid(e) && e.op.None? && key in {Char('w'), Char('W'), Char('b'), Char('B'), Char('e'), Char('E')}
    ensures var s := NormalKey(e, yank, key);
      var p, last := Cursor(e), |e.text| - 1;
      && s.ed.text == e.text && s.yank == yank && s.ed.op == None && s.ed.normal == e.normal
      && s.ed.completion == e.completion
      && s.ed.undo == Entry(e).undo && s.ed.undoLvl == Entry(e).undoLvl
      && (s.result == Raised <==> (|e.text| == 0 && key in {Char('w'), Char('W'), Char('b'), Char('B')}) || (key in {Char('e'), Char('E')} && p == last))
      && (s.result == Consumed ==> s.ed.m == 1)
      && (key in {Char('w'), Char('W')} && 0 < |e.text| ==> s.ed.pos == WordForwardN(e.text, p, e.m))
      && (key in {Char('b'), Char('B')} && 0 < |e.text| ==> s.ed.pos == WordBackwardN(e.text, p, e.m))
      && (key in {Char('e'), Char('E')} && p < last ==> s.ed.pos == WordEndN(e.text, p, e.m))
  {
    NormalKeyMove(e, yank, key);
    var e1, p := Entry(e), Cursor(e);
    if key in {Char('w'), Char('W')} {
      ForwardMotionLands(e1, yank, key, p);
    } else if key in {Char('b'), Char('B')} {
      BackwardMotionLands(e1, yank, key, p);
    } else {
      EndMotionLands(e1, yank, key, p);
    }
  }

  // ---------------------------------------------------------------------------
  // The count and the history, key group by key group

  /** The keys that enter Insert mode, from a text that is its current
      snapshot: the history stays, and unless they raise the count goes back
      to 1 and no operator is left pending. */
  lemma ModeCommandKeeps(e: Editor, yank: string, key: Key, pos: int)
    requires Entered(e, pos) && e.op.None? && e.undo[e.undoLvl] == e.text
    ensures var s := ModeCommand(e, yank, key, pos);
      && s.ed.undo == e.undo
      && (s.result == Consumed ==> s.ed.m == 1 && s.ed.op == None)
  {
    if key in {Char('I'), Char('A')} {
      CallViLands(e, yank, if key == Char('I') then Char('0') else Char('$'), None);
      if key == Char('A') {
        var s1 := CallVi(e, yank, Char('$'), None);
        CallViAppends(s1.ed, s1.yank);
      }
    } else if key == Char('C') {
      CallViLands(e, yank, Char('$'), Some(Change));
    }
  }

  /** The motions keep the operator, and reset the count unless they raise. */
  lemma MoveCommandKeeps(e: Editor, yank: string, key: Key, pos: int)
    requires Entered(e, pos)
    ensures var s := MoveCommand(e, yank, key, pos);
      && s.ed.op == e.op
      && (s.result == Consumed ==> s.ed.m == 1)
  {
  }

  /** The edits keep the operator and reset the count. */
  lemma EditCommandKeeps(e: Editor, yank: string, key: Key, pos: int)
    requires Entered(e, pos)
    ensures var s := EditCommand(e, yank, key, pos);
      s.ed.op == e.op && s.ed.m == 1
  {
  }

  /** The command branch, from a text that is its current snapshot, keeps
      the history; the count rule holds for every key. */
  lemma CommandKeeps(e: Editor, yank: string, key: Key, pos: int)
    requires Entered(e, pos) && e.op.None? && e.undo[e.undoLvl] == e.text
    ensures var s := Command(e, yank, key, pos);
      && s.ed.undo == e.undo
      && (IsDigitKey(key) ==> s.ed.m == DigitValue(key) && s.ed.op == None)
      && (key == Char('c') ==> s.ed.op == Some(Change) && s.ed.m == e.m)
      && (key == Char('d') ==> s.ed.op == Some(Delete) && s.ed.m == e.m)
      && (key == Char('y') ==> s.ed.op == Some(Yank) && s.ed.m == e.m)
      && (!IsDigitKey(key) && key !in {Char('c'), Char('d'), Char('y')} && s.result == Consumed ==> s.ed.m == 1 && s.ed.op == None)
  {
    if key in {Char('i'), Char('I'), Char('a'), Char('A'), Char('C')} {
      ModeCommandKeeps(e, yank, key, pos);
    } else if key in {Char('h'), Char('l'), Char('0'), Char('$'), Char('w'), Char('W'), Char('b'), Char('B'), Char('e'), Char('E')} {
      MoveCommandKeeps(e, yank, key, pos);
    } else if key in {Char('x'), Char('P'), Char('p'), Char('u'), Ctrl('r')} {
      EditCommandKeeps(e, yank, key, pos);
    }
  }

  /** `c`, `d` and `y` only record the operator: text, cursor (once on the
      text), count, mode and register stay. */
  lemma OperatorKeyPends(e: Editor, yank: string, key: Key)
    requires Valid(e) && e.op.None? && key in {Char('c'), Char('d'), Char('y')}
    ensures NormalKey(e, yank, key) ==
      Step(Entry(e).(op := Some(if key == Char('c') then Change else if key == Char('d') then Delete else Yank)), yank, Consumed)
  {
    NormalKeyEntry(e, yank, key);
  }

  /** A digit replaces the count (it does not accumulate); `c`, `d` and `y`
      set the operator and keep the count; every other key that does not
      raise resets the count to 1, and none leaves an operator pending. */
  lemma CountRule(e: Editor, yank: string, key: Key)
    requires Valid(e) && e.op.None?
    ensures var s := NormalKey(e, yank, key);
      && (IsDigitKey(key) ==> s.ed.m == DigitValue(key) && s.ed.op == None)
      && (key == Char('c') ==> s.ed.op == Some(Change) && s.ed.m == e.m)
      && (key == Char('d') ==> s.ed.op == Some(Delete) && s.ed.m == e.m)
      && (key == Char('y') ==> s.ed.op == Some(Yank) && s.ed.m == e.m)
      && (!IsDigitKey(key) && key !in {Char('c'), Char('d'), Char('y')} && s.result == Consumed ==> s.ed.m == 1 && s.ed.op == None)
  {
    NormalKeyEntry(e, yank, key);
    CommandKeeps(Entry(e), yank, key, Cursor(e));
  }

  /** `normal_key` changes the history only at its checkpoint: a text that
      differs from the current snapshot is appended after the whole history,
      even when redo entries lie beyond the current one, and nothing is ever
      dropped. */
  lemma HistoryOnlyGrowsAtCheckpoint(e: Editor, yank: string, key: Key)
    requires Valid(e)
    ensures NormalKey(e, yank, key).ed.undo ==
      if e.undo[e.undoLvl] != e.text then e.undo + [e.text] else e.undo
  {
    NormalKeyEntry(e, yank, key);
    if e.op.None? {
      CommandKeeps(Entry(e), yank, key, Cursor(e));
    }
  }

  /** `u` steps back one snapshot, if there is one before the current one
      (after the checkpoint), and shows it; the history is kept. */
  lemma UndoStep(e: Editor, yank: string)
    requires Valid(e) && e.op.None?
    ensures var s := NormalKey(e, yank, Char('u'));
      var c := Entry(e);
      && s.result == Consumed && s.yank == yank && s.ed.op == None
      && s.ed.undo == c.undo
      && s.ed.undoLvl == Max(c.undoLvl - 1, 0)
      && s.ed.text == s.ed.undo[s.ed.undoLvl]
  {
    NormalKeyEntry(e, yank, Char('u'));
  }

  /** `ctrl r` steps forward one snapshot, if there is one after the current
      one, and shows it; the history is kept. */
  lemma RedoStep(e: Editor, yank: string)
    requires Valid(e) && e.op.None?
    ensures var s := NormalKey(e, yank, Ctrl('r'));
      var c := Entry(e);
      && s.result == Consumed && s.yank == yank && s.ed.op == None
      && s.ed.undo == c.undo
      && s.ed.undoLvl == Min(c.undoLvl + 1, |c.undo| - 1)
      && s.ed.text == s.ed.undo[s.ed.undoLvl]
  {
    NormalKeyEntry(e, yank, Ctrl('r'));
  }

  /** `u` then `ctrl r` gives back the text as it was before `u`, whenever
      there is something to undo: an earlier snapshot, or a text that differs
      from the current one (and is then checkpointed). */
  lemma UndoThenRedo(e: Editor, yank: string)
    requires Valid(e) && e.op.None?
    requires e.undoLvl > 0 || e.undo[e.undoLvl] != e.text
    ensures var s1 := NormalKey(e, yank, Char('u'));
      var s2 := NormalKey(s1.ed, s1.yank, Ctrl('r'));
      && s2.ed.text == e.text
      && s2.ed.undo == Entry(e).undo && s2.ed.undoLvl == Entry(e).undoLvl
  {
    UndoStep(e, yank);
    var s1 := NormalKey(e, yank, Char('u'));
    RedoStep(s1.ed, s1.yank);
  }

  /** `ctrl r` then `u` gives back the text, when the text is the current
      snapshot and a later one exists. */
  lemma RedoThenUndo(e: Editor, yank: string)
    requires Valid(e) && e.op.None?
    requires e.undo[e.undoLvl] == e.text && e.undoLvl < |e.undo| - 1
    ensures var s1 := NormalKey(e, yank, Ctrl('r'));
      var s2 := NormalKey(s1.ed, s1.yank, Char('u'));
      && s2.ed.text == e.text
      && s2.ed.undo == e.undo && s2.ed.undoLvl == e.undoLvl
  {
    RedoStep(e, yank);
    var s1 := NormalKey(e, yank, Ctrl('r'));
    UndoStep(s1.ed, s1.yank);
  }

  // ---------------------------------------------------------------------------
  // x and paste

  /** The edit keys reach `EditCommand` unchanged. */
  lemma NormalKeyEdit(e: Editor, yank: string, key: Key)
    requires Valid(e) && e.op.None? && key in {Char('x'), Char('P'), Char('p'), Char('u'), Ctrl('r')}
    ensures NormalKey(e, yank, key) == EditCommand(Entry(e), yank, key, Cursor(e))
  {
    NormalKeyEntry(e, yank, key);
  }

  /** `x` as `EditCommand` runs it: the deletion loop from the local `pos`,
      or from one before it on the last character. */
  lemma EditDeletes(e: Editor, yank: string, pos: int)
    requires Entered(e, pos) && |e.text| >= 2
    ensures var s := EditCommand(e, yank, Char('x'), pos);
      var p := if pos == |e.text| - 1 then pos - 1 else pos;
      && s.result == Consumed && s.yank == yank && s.ed.m == 1
      && s.ed.text == e.text[..p] + e.text[Min(p + e.m, |e.text|)..] && s.ed.pos == p
  {
    var p := if pos == |e.text| - 1 then pos - 1 else pos;
    DeleteRunRemoves(e.text, p, e.m);
  }

  /** `x` on a text of two or more characters removes the `m` characters from
      the cursor on (fewer at the end), except that on the last character it
      starts one to the left; the cursor stays at that start. */
  lemma DeleteUnderCursor(e: Editor, yank: string)
    requires Valid(e) && e.op.None? && |e.text| >= 2
    ensures var s := NormalKey(e, yank, Char('x'));
      var last := |e.text| - 1;
      var p := if Cursor(e) == last then last - 1 else Cursor(e);
      && s.result == Consumed && s.yank == yank && s.ed.m == 1
      && s.ed.text == e.text[..p] + e.text[Min(p + e.m, |e.text|)..]
      && s.ed.pos == p
  {
    NormalKeyEdit(e, yank, Char('x'));
    EditDeletes(Entry(e), yank, Cursor(e));
  }

  /** `x` on a text of at most one character changes nothing but the
      cursor, which goes to 0. */
  lemma DeleteOnShortText(e: Editor, yank: string)
    requires Valid(e) && e.op.None? && |e.text| <= 1
    ensures var s := NormalKey(e, yank, Char('x'));
      && s.result == Consumed && s.yank == yank
      && s.ed.text == e.text && s.ed.pos == 0
  {
    var last := |e.text| - 1;
    var p := if Cursor(e) == last then last - 1 else Cursor(e);
    NormalKeyEdit(e, yank, Char('x'));
    DeleteRunShortText(e.text, p, e.m);
  }

  /** `insert_yank(p)` for `p` from -1 up to the end of the text: the
      register goes in at `p`, or before the last character for -1. */
  lemma InsertYankAt(e: Editor, yank: string, p: int)
    requires Valid(e) && -1 <= p <= |e.text|
    ensures var r := InsertYank(e, yank, p);
      var at := if p < 0 then Max(|e.text| - 1, 0) else p;
      && r.text == e.text[..at] + yank + e.text[at..]
      && r.pos == (if p < 0 then Max(|yank| - 1, 0) else p + |yank|)
      && r.op == e.op && r.normal == e.normal
  {
  }

  /** `P` inserts the register at the cursor and leaves the cursor just
      past it; the register is kept. */
  lemma PasteBefore(e: Editor, yank: string)
    requires Valid(e) && e.op.None?
    ensures var s := NormalKey(e, yank, Char('P'));
      var q := Max(Cursor(e), 0);
      && s.result == Consumed && s.yank == yank
      && s.ed.text == e.text[..q] + yank + e.text[q..]
      && s.ed.pos == q + |yank|
  {
    var e1 := Entry(e);
    NormalKeyEdit(e, yank, Char('P'));
    InsertYankAt(e1, yank, e1.pos);
  }

  /** `p` inserts the register one to the left of the cursor; at cursor 0
      that index is -1, so the register goes in before the last character
      and the cursor ends at `|register| - 1`, not after it. */
  lemma PasteAfter(e: Editor, yank: string)
    requires Valid(e) && e.op.None?
    ensures var s := NormalKey(e, yank, Char('p'));
      var q := Max(Cursor(e), 0) - 1;
      var at := if q < 0 then Max(|e.text| - 1, 0) else q;
      && s.result == Consumed && s.yank == yank
      && s.ed.text == e.text[..at] + yank + e.text[at..]
      && s.ed.pos == (if q < 0 then Max(|yank| - 1, 0) else q + |yank|)
  {
    var e1 := Entry(e);
    NormalKeyEdit(e, yank, Char('p'));
    InsertYankAt(e1, yank, e1.pos - 1);
  }

  /** `P` with the cursor where a range was cut out of `text` and the cut
      part in the register puts it back, unless the cut reached the end of
      the text from a non-zero start (the cursor is then moved back first). */
  lemma PasteRestores(e: Editor, yank: string, text: string, lo: int, hi: int)
    requires Valid(e) && e.op.None? && 0 <= lo <= hi <= |text|
    requires e.text == text[..lo] + text[hi..] && e.pos == lo && yank == text[lo..hi]
    requires hi < |text| || lo == 0
    ensures var s := NormalKey(e, yank, Char('P'));
      s.ed.text == text && s.ed.pos == hi && s.yank == yank
  {
    TextSelParts(text, lo, hi);
    TextSelRebuilds(text, lo, hi);
    PasteBefore(e, yank);
    assert Max(Cursor(e), 0) == lo;
  }

  /** Deleting with a motion and then pasting before the cursor puts the
      text back as it was, with the cursor after the restored part: for `w`,
      `b` and `0` everywhere, and for `$` from the start of the text. */
  lemma DeleteThenPaste(e: Editor, yank: string, key: Key)
    requires Valid(e) && e.op == Some(Delete) && |e.text| > 0
    requires key in {Char('w'), Char('W'), Char('b'), Char('B'), Char('0')} || (key == Char('$') && Cursor(e) == 0)
    ensures var s1 := NormalKey(e, yank, key);
      var s2 := NormalKey(s1.ed, s1.yank, Char('P'));
      && s2.ed.text == e.text && s2.yank == s1.yank
      && s2.ed.pos == Max(Cursor(e), MotionEnd(e.text, Cursor(e), e.m, key))
  {
    var pos := Cursor(e);
    var pos2 := MotionEnd(e.text, pos, e.m, key);
    OperatorMotionRange(e, yank, key);
    var s1 := NormalKey(e, yank, key);
    PasteRestores(s1.ed, s1.yank, e.text, Min(pos, pos2), Max(pos, pos2));
  }

  // ---------------------------------------------------------------------------
  // Insert mode and keypress

  /** A key goes back to the host exactly when the editor is in Insert mode
      and the key is not one `insert_key` knows; then nothing has changed.
      No Normal-mode key ever reaches the host. */
  lemma HandsBackOnlyUnknownInsertKeys(e: Editor, yank: string, cb: Option<Completer>, key: Key)
    requires Valid(e)
    ensures var s := KeyPress(e, yank, cb, key);
      && (s.result.Unhandled? <==> !e.normal && !IsInsertModeKey(key))
      && (s.result.Unhandled? ==> s.result == Unhandled(key) && s.ed == e && s.yank == yank)
  {
  }

  /** `esc` enters Normal mode one to the left and drops the operator; `i`
      then enters Insert mode again with text, cursor and register as `esc`
      left them. */
  lemma EscapeThenInsert(e: Editor, yank: string, cb: Option<Completer>)
    requires Valid(e) && !e.normal
    ensures var s1 := KeyPress(e, yank, cb, Esc);
      var s2 := KeyPress(s1.ed, s1.yank, cb, Char('i'));
      && s1.result == Consumed && s1.ed.normal && s1.ed.op == None
      && s1.ed.text == e.text && s1.ed.pos == Max(e.pos - 1, 0)
      && s2.result == Consumed && !s2.ed.normal
      && s2.ed.text == e.text && s2.ed.pos == Max(e.pos - 1, 0) && s2.yank == yank
  {
    var s1 := KeyPress(e, yank, cb, Esc);
    NormalKeyEntry(s1.ed, s1.yank, Char('i'));
  }

  /** In Insert mode a chord is `call_vi` with its key and operator. */
  lemma ChordIsCallVi(e: Editor, yank: string, cb: Option<Completer>, key: Key)
    requires Valid(e) && !e.normal && IsChord(key)
    ensures KeyPress(e, yank, cb, key) == CallVi(e, yank, Chord(key).0, Chord(key).1)
  {
  }

  /** `call_vi` with a word motion raises exactly on an empty text; with `P`
      it never raises. */
  lemma CallViRaises(e: Editor, yank: string, key: Key, op: Option<Operator>)
    requires Valid(e) && key in {Char('w'), Char('b'), Char('P')} && (key == Char('P') ==> op.None?)
    ensures CallVi(e, yank, key, op).result == Raised <==> |e.text| == 0 && key != Char('P')
  {
    var e0 := e.(normal := true, op := op);
    assert CallVi(e, yank, key, op).result == NormalKey(e0, yank, key).result;
    NormalKeyEntry(e0, yank, key);
    if op.None? {
      var e1 := Entry(e0);
      assert Command(e1, yank, key, Cursor(e0)) ==
        if key == Char('P') then EditCommand(e1, yank, key, Cursor(e0)) else MoveCommand(e1, yank, key, Cursor(e0));
    }
  }

  /** The chords that run a word motion are `ctrl w`, `ctrl b` and `ctrl f`. */
  lemma WordChords(key: Key)
    requires IsChord(key)
    ensures Chord(key).0 in {Char('w'), Char('b')} <==> key in {Ctrl('w'), Ctrl('b'), Ctrl('f')}
  {
  }

  /** The keys the chords run through `call_vi`: only `w` and `b` raise, and
      only on an empty text. */
  lemma CallViRaisesIff(e: Editor, yank: string, key: Key, op: Option<Operator>)
    requires Valid(e) && key in {Char('0'), Char('$'), Char('w'), Char('b'), Char('P')} && (key == Char('P') ==> op.None?)
    ensures CallVi(e, yank, key, op).result == Raised <==> |e.text| == 0 && key in {Char('w'), Char('b')}
  {
    if key in {Char('0'), Char('$')} {
      CallViLands(e, yank, key, op);
    } else {
      CallViRaises(e, yank, key, op);
    }
  }

  /** The emacs chords and tab in Insert mode: only `ctrl w`, `ctrl b` and
      `ctrl f` on an empty text raise, and a key that does not raise leaves
      the editor in Insert mode. */
  lemma InsertKeysRaise(e: Editor, yank: string, cb: Option<Completer>, key: Key)
    requires Valid(e) && !e.normal && IsInsertModeKey(key) && key != Esc
    ensures var s := KeyPress(e, yank, cb, key);
      && (s.result == Raised <==> |e.text| == 0 && key in {Ctrl('w'), Ctrl('b'), Ctrl('f')})
      && (s.ed.normal <==> s.result == Raised)
  {
    if key != Tab {
      ChordIsCallVi(e, yank, cb, key);
      CallViRaisesIff(e, yank, Chord(key).0, Chord(key).1);
      WordChords(key);
    }
  }

  /** `call_vi` with an operator and one of its motions, on a non-empty
      text: the operator acts on the range as in Normal mode, and the editor
      ends in Insert mode. */
  lemma CallViOperator(e: Editor, yank: string, key: Key, op: Operator)
    requires Valid(e) && |e.text| > 0 && IsOperatorMotion(key)
    ensures var s := CallVi(e, yank, key, Some(op));
      var pos := Cursor(e);
      var pos2 := MotionEnd(e.text, pos, e.m, key);
      var lo, hi := Min(pos, pos2), Max(pos, pos2);
      && s.result == Consumed && !s.ed.normal && s.ed.op == None
      && s.yank == e.text[lo..hi]
      && s.ed.text == (if op == Yank then e.text else e.text[..lo] + e.text[hi..])
      && s.ed.pos == lo
  {
    var e0 := e.(normal := true, op := Some(op));
    OperatorMotionRange(e0, yank, key);
    var s0 := NormalKey(e0, yank, key);
    assert s0.result == Consumed;
    assert CallVi(e, yank, key, Some(op)).ed == s0.ed.(normal := false);
  }

  /** `ctrl u` cuts from the start to the cursor into the register and
      leaves the cursor at 0; on an empty text it empties the register. */
  lemma EmacsKillsToStart(e: Editor, yank: string, cb: Option<Completer>)
    requires Valid(e) && !e.normal
    ensures var s := KeyPress(e, yank, cb, Ctrl('u'));
      var p := Max(Cursor(e), 0);
      && s.result == Consumed && !s.ed.normal
      && s.ed.text == e.text[p..] && s.yank == e.text[..p] && s.ed.pos == 0
  {
    ChordIsCallVi(e, yank, cb, Ctrl('u'));
    if |e.text| == 0 {
      CallViOnEmptyText(e, yank, Char('0'), Delete);
    } else {
      CallViOperator(e, yank, Char('0'), Delete);
    }
  }

  /** `call_vi('$', 'd')` on a non-empty text cuts from the cursor to the
      end into the register and returns to Insert mode. */
  lemma CallViCutsToEnd(e: Editor, yank: string)
    requires Valid(e) && |e.text| > 0
    ensures var s := CallVi(e, yank, Char('$'), Some(Delete));
      var p := Cursor(e);
      && s.result == Consumed && !s.ed.normal
      && s.ed.text == e.text[..p] && s.yank == e.text[p..] && s.ed.pos == p
  {
    CallViOperator(e, yank, Char('$'), Delete);
    assert e.text[..Cursor(e)] + e.text[|e.text|..] == e.text[..Cursor(e)];
  }

  /** `ctrl k` cuts from the cursor to the end into the register.  The
      cursor is first moved back onto the text, so at the end of the text
      `ctrl k` cuts the last character; on an empty text it empties the
      register. */
  lemma EmacsKillsToEnd(e: Editor, yank: string, cb: Option<Completer>)
    requires Valid(e) && !e.normal
    ensures var s := KeyPress(e, yank, cb, Ctrl('k'));
      var p := Max(Cursor(e), 0);
      && s.result == Consumed && !s.ed.normal
      && s.ed.text == e.text[..p] && s.yank == e.text[p..] && s.ed.pos == p
  {
    ChordIsCallVi(e, yank, cb, Ctrl('k'));
    if |e.text| == 0 {
      CallViOnEmptyText(e, yank, Char('$'), Delete);
    } else {
      CallViCutsToEnd(e, yank);
    }
  }

  /** `call_vi('b', 'd')` on a non-empty text cuts the `m` words before the
      cursor into the register and returns to Insert mode. */
  lemma CallViDeletesBack(e: Editor, yank: string)
    requires Valid(e) && |e.text| > 0
    ensures var s := CallVi(e, yank, Char('b'), Some(Delete));
      var p := Cursor(e);
      var b := WordBackwardN(e.text, p, e.m);
      && s.result == Consumed && !s.ed.normal
      && s.ed.text == e.text[..b] + e.text[p..]
      && s.yank == e.text[b..p]
      && s.ed.pos == b
  {
    CallViOperator(e, yank, Char('b'), Delete);
  }

  /** `ctrl w` on a non-empty text cuts the `m` words before the cursor into
      the register and leaves the cursor where they began. */
  lemma EmacsDeletesWords(e: Editor, yank: string, cb: Option<Completer>)
    requires Valid(e) && !e.normal && |e.text| > 0
    ensures var s := KeyPress(e, yank, cb, Ctrl('w'));
      var p := Cursor(e);
      var b := WordBackwardN(e.text, p, e.m);
      && s.result == Consumed && !s.ed.normal
      && s.ed.text == e.text[..b] + e.text[p..]
      && s.yank == e.text[b..p]
      && s.ed.pos == b
  {
    assert KeyPress(e, yank, cb, Ctrl('w')) == CallVi(e, yank, Char('b'), Some(Delete));
    CallViDeletesBack(e, yank);
  }

  // ---------------------------------------------------------------------------
  // Tab completion

  /** After a completion that strictly extends the text it was given, the
      next tab hands the completer the same text again together with the
      record of what was added, so it can offer the next candidate. */
  lemma TabCycles(e: Editor, cb: Option<Completer>)
    requires Valid(e) && cb.Some?
    requires var (before, data) := CompletionRequest(e);
      var full := cb.value(before, data);
      full.Some? && before < full.value
    ensures var (before, data) := CompletionRequest(e);
      var full := cb.value(before, data).value;
      var e1 := TabComplete(e, cb);
      && e1.completion == Completed(full[|before|..], |full|)
      && e1.pos == |full|
      && CompletionRequest(e1) == (before, e1.completion)
  {
    var (before, data) := CompletionRequest(e);
    var full := cb.value(before, data).value;
    var e1 := TabComplete(e, cb);
    var c := full[|before|..];
    assert full[..|before|] == before;
    assert e1.text[..e1.pos] == full;
    assert full[|full| - |c|..] == c;
  }

  // ---------------------------------------------------------------------------
  // Sessions

  /** In any session, the first snapshot of the history stays the text the
      editor was built with. */
  lemma SessionKeepsFirstSnapshot(text: string, pos: int, normalMode: bool, yank: string,
                                  cb: Option<Completer>, host: Host, keys: seq<Key>)
    ensures var e := Init(text, pos, normalMode, yank).ed;
      Run(e, yank, cb, host, keys).ed.undo[0] == text
  {
  }
}
