/** Concrete runs of the editor: cutting a word and pasting it back, `x` on
    the last character, and two editors sharing one register. */
module ViExamples {
  import opened ViText
  import opened ViSpec
  import opened ViProperties
  import opened ViWidget

  /** A Normal-mode editor on `text` with the cursor at `pos` and a fresh
      history. */
  function Fresh(text: string, pos: int): (e: Editor)
    requires 0 <= pos <= |text|
    ensures Valid(e) && e.op == None && e.normal
  {
    Editor(text, pos, true, None, 1, [text], 0, NoCompletion)
  }

  /** The first word of "hello world" and the blank after it. */
  lemma FirstWordEnd()
    ensures WordForwardN("hello world", 0, 1) == 6
  {
    WordForwardIff("hello world", 0, 6);
  }

  /** `d` `w` from the start of a text that is its current snapshot, with
      the count 1, cuts up to the start of the second word. */
  lemma DeleteFirstWord(e: Editor, yank: string)
    requires Valid(e) && e.op == None && e.normal && e.m == 1 && e.pos == 0 && |e.text| > 0
    requires e.undo[e.undoLvl] == e.text
    ensures var s0 := NormalKey(e, yank, Char('d'));
      var s1 := NormalKey(s0.ed, s0.yank, Char('w'));
      var w := WordForwardN(e.text, 0, 1);
      s1.ed.text == e.text[w..] && s1.yank == e.text[..w] && s1.ed.pos == 0
  {
    OperatorKeyPends(e, yank, Char('d'));
    assert Entry(e) == e;
    OperatorMotionRange(e.(op := Some(Delete)), yank, Char('w'));
  }

  /** `d` `w` at the start of "hello world" cuts "hello " into the register
      and leaves "world" with the cursor at 0. */
  lemma DeleteWord(e: Editor)
    requires e == Fresh("hello world", 0)
    ensures var s0 := NormalKey(e, "", Char('d'));
      var s1 := NormalKey(s0.ed, s0.yank, Char('w'));
      s1.ed.text == "world" && s1.yank == "hello " && s1.ed.pos == 0
  {
    DeleteFirstWord(e, "");
    FirstWordEnd();
    var hello, world := "hello ", "world";
    assert e.text == hello + world;
    assert e.text[..6] == hello && e.text[6..] == world;
  }

  /** `P` then puts "hello " back, with the cursor after it. */
  lemma DeleteWordThenPaste(e: Editor)
    requires e == Fresh("hello world", 0)
    ensures var s0 := NormalKey(e, "", Char('d'));
      var s1 := NormalKey(s0.ed, s0.yank, Char('w'));
      var s2 := NormalKey(s1.ed, s1.yank, Char('P'));
      s2.ed.text == "hello world" && s2.ed.pos == 6
  {
    OperatorKeyPends(e, "", Char('d'));
    assert Entry(e) == e;
    FirstWordEnd();
    DeleteThenPaste(e.(op := Some(Delete)), "", Char('w'));
  }

  /** `x` on the last character of "abc" deletes the "b" before it. */
  lemma DeleteOnLastCharacter(e: Editor)
    requires e == Fresh("abc", 2)
    ensures var s := NormalKey(e, "", Char('x'));
      s.ed.text == "ac" && s.ed.pos == 1
  {
    DeleteUnderCursor(e, "");
  }

  /** `d` `w` in a Normal-mode editor on a non-empty text cuts from the
      cursor to the start of the `m`-th next word into the register. */
  method CutWord(a: ViEdit)
    requires a.Valid() && a.normal && a.op == None && |a.text| > 0
    modifies a, a.register
    ensures a.Valid() && a.normal && a.op == None
    ensures var t, p := old(a.text), Cursor(old(a.Model()));
      var w := WordForwardN(t, p, old(a.m));
      a.text == t[..p] + t[w..] && a.register.text == t[p..w]
  {
    ghost var e := a.Model();
    OperatorKeyPends(e, a.register.text, Char('d'));
    var r := a.KeyPress(Char('d'));
    OperatorMotionRange(a.Model(), a.register.text, Char('w'));
    r := a.KeyPress(Char('w'));
  }

  /** `ctrl y` in an Insert-mode editor pastes the register at the cursor. */
  method PasteInto(b: ViEdit)
    requires b.Valid() && !b.normal
    modifies b, b.register
    ensures b.Valid() && !b.normal
    ensures var q := Max(Cursor(old(b.Model())), 0);
      b.text == old(b.text)[..q] + b.register.text + old(b.text)[q..] && b.register.text == old(b.register.text)
  {
    ghost var f := b.Model();
    ChordIsCallVi(f, b.register.text, b.completer, Ctrl('y'));
    PasteBefore(f.(normal := true, op := None), b.register.text);
    var r := b.KeyPress(Ctrl('y'));
  }

  /** Two editors share one register: a word cut with `d` `w` in the first
      (in Normal mode, on a non-empty text) is what `ctrl y` pastes into the
      second (in Insert mode). */
  method CutWordAcross(a: ViEdit, b: ViEdit)
    requires a != b && a.register == b.register
    requires a.Valid() && a.normal && a.op == None && |a.text| > 0
    requires b.Valid() && !b.normal
    modifies a, b, a.register
    ensures var t, p := old(a.text), Cursor(old(a.Model()));
      var w := WordForwardN(t, p, old(a.m));
      var q := Max(Cursor(old(b.Model())), 0);
      && a.text == t[..p] + t[w..] && a.register.text == t[p..w]
      && b.text == old(b.text)[..q] + t[p..w] + old(b.text)[q..]
  {
    CutWord(a);
    PasteInto(b);
  }
}
