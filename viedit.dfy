/** The `ViEdit` widget as a class whose methods change its fields step by
    step, as the source does.  Every editor shares one `Register` object, the
    class attribute `ViEdit.yank_text`.  Each method is proved to leave the
    editor and the register exactly as the matching function of ViSpec says. */
module ViWidget {
  import opened PySeq
  import opened ViText
  import opened ViSpec

  /** The one-slot cut/paste register (a class attribute in the source,
      empty when the module is loaded).  As in the source, every editor
      should hold the same `Register`; the class does not force it. */
  class Register {
    var text: string

    constructor ()
      ensures text == ""
    {
      text := "";
    }
  }

  class ViEdit {
    var text: string                // edit_text
    var pos: int                    // edit_pos
    var normal: bool
    var op: Option<Operator>
    var m: int
    var undo: seq<string>
    var undoLvl: int                // undo_lvl
    var completion: Completion      // completion_data
    const completer: Option<Completer>   // completion_cb
    const register: Register        // ViEdit.yank_text

    /** The state of this editor as a value. */
    ghost function Model(): Editor
      reads this
    {
      Editor(text, pos, normal, op, m, undo, undoLvl, completion)
    }

    ghost predicate Valid()
      reads this
    {
      ViSpec.Valid(Model())
    }

    /** The editor and the register are now those of `s`, and the handler
        answered `r`. */
    ghost predicate Became(s: Step, r: KeyResult)
      reads this, register
    {
      Model() == s.ed && register.text == s.yank && r == s.result
    }

    /** `__init__`: urwid places the cursor (clipped into the text), the
        history starts with the text, and in Normal mode `$` runs. */
    constructor (editText: string, editPos: int, normalMode: bool, completer: Option<Completer>, register: Register)
      modifies register
      ensures Valid() && this.completer == completer && this.register == register
      ensures Became(Init(editText, editPos, normalMode, old(register.text)), Consumed)
    {
      this.text := editText;
      this.pos := if editPos < 0 then 0 else if editPos > |editText| then |editText| else editPos;
      this.normal := normalMode;
      this.op := None;
      this.m := 1;
      this.undo := [editText];
      this.undoLvl := 0;
      this.completer := completer;
      this.completion := NoCompletion;
      this.register := register;
      new;
      if normal {
        var _ := NormalKey(Char('$'));
      }
    }

    /** urwid's `set_edit_pos` */
    method SetEditPos(p: int)
      modifies this`pos
      ensures Model() == SetPos(old(Model()), p)
    {
      pos := if p < 0 then 0 else if p > |text| then |text| else p;
    }

    /** urwid's `set_edit_text` */
    method SetEditText(t: string)
      requires 0 <= pos
      modifies this`text, this`pos
      ensures Model() == SetText(old(Model()), t)
    {
      text := t;
      if pos > |t| {
        pos := |t|;
      }
    }

    /** `insert_yank(pos)` */
    method InsertYank(p: int)
      requires Valid()
      modifies this`text, this`pos
      ensures Model() == ViSpec.InsertYank(old(Model()), register.text, p)
    {
      var t := register.text;
      SetEditText(Take(text, p) + t + Drop(text, p));
      SetEditPos(p + |t|);
    }

    /** `tab_complete()`.  The source writes the two entries of the record one
        after the other; nothing can fail between them, so the record is
        written once. */
    method TabComplete()
      requires Valid()
      modifies this`text, this`pos, this`completion
      ensures Model() == ViSpec.TabComplete(old(Model()), completer)
    {
      if completer == None {
        return;
      }
      var before := Take(text, pos);
      if completion.Completed? {
        var c := completion.completed;
        if c == [] || completion.position != pos || !EndsWith(before, c) {
          completion := NoCompletion;
        } else {
          before := Take(before, -|c|);
        }
      }
      var complete := completer.value(before, completion);
      match complete
      case None =>
        // the completer raised; the error is swallowed
      case Some(full) =>
        var completed := Drop(full, |before|);
        SetEditText(full + Drop(text, pos));
        SetEditPos(|full|);
        completion := Completed(completed, pos);
    }

    /** `call_vi(key, op)` */
    method CallVi(key: Key, op: Option<Operator>) returns (r: KeyResult)
      requires Valid()
      modifies this, register
      ensures Valid() && Became(ViSpec.CallVi(old(Model()), old(register.text), key, op), r)
      decreases Rank(key), 3
    {
      normal := true;
      this.op := op;
      r := NormalKey(key);
      if r == Raised {
        return;
      }
      normal := false;
    }

    /** `normal_key(key)` */
    method NormalKey(key: Key) returns (r: KeyResult)
      requires Valid()
      modifies this, register
      ensures Valid() && Became(ViSpec.NormalKey(old(Model()), old(register.text), key), r)
      decreases Rank(key), 2
    {
      ghost var e0 := Model();
      var pos := this.pos;
      var text := this.text;
      if pos >= |this.text| {
        pos := |this.text| - 1;
        SetEditPos(pos);
      }
      ghost var e1 := Model();
      assert e1 == if e0.pos >= |e0.text| then SetPos(e0, pos) else e0;
      if undo[undoLvl] != text {
        undoLvl := |undo|;
        undo := undo[..undoLvl] + [text];
      }
      assert Model() == Checkpoint(e1);
      assert pos == Cursor(e0) && Entered(Model(), pos);
      if op.Some? {
        r := OperatorMotion(key, pos);
      } else {
        r := Command(key, pos);
      }
    }

    /** The operator branch of `normal_key`. */
    method OperatorMotion(key: Key, pos: int) returns (r: KeyResult)
      requires Entered(Model(), pos) && op.Some?
      modifies this, register
      ensures Valid() && Became(ViSpec.OperatorMotion(old(Model()), old(register.text), key, pos), r)
    {
      var text := this.text;
      var sel: Option<(string, string)> := None;
      if key == Char('w') || key == Char('W') {
        if |text| == 0 {
          return Raised;
        }
        var pos2 := RepeatW(text, pos, m);
        sel := Some(TextSel(text, pos, pos2));
      } else if key == Char('b') || key == Char('B') {
        if |text| == 0 {
          return Raised;
        }
        var pos2 := RepeatB(text, pos, m);
        sel := Some(TextSel(text, pos2, pos));
        SetEditPos(pos2);
      } else if key == Char('0') {
        sel := Some(TextSel(text, 0, pos));
        SetEditPos(0);
      } else if key == Char('$') {
        sel := Some(TextSel(text, pos, |text|));
      }
      FinishOperator(sel);
      r := Consumed;
    }

    /** The end of the operator branch, given the selection of the motion
        (None for a key that is not a motion). */
    method FinishOperator(sel: Option<(string, string)>)
      requires Valid() && op.Some?
      modifies this, register
      ensures sel.None? ==> Model() == EndOperator(old(Model()), old(op).value) && register.text == old(register.text)
      ensures sel.Some? ==> Became(Operate(old(Model()), old(op).value, sel.value), Consumed)
    {
      if sel.Some? {
        register.text := sel.value.0;
        if op == Some(Change) || op == Some(Delete) {
          SetEditText(sel.value.1);
        }
      }
      if op == Some(Change) {
        normal := false;
      }
      op := None;
    }

    /** The command branch of `normal_key`, by kind of key. */
    method Command(key: Key, pos: int) returns (r: KeyResult)
      requires Entered(Model(), pos) && op.None?
      modifies this, register
      ensures Valid() && Became(ViSpec.Command(old(Model()), old(register.text), key, pos), r)
      decreases Rank(key), 1
    {
      r := Consumed;
      if key in {Char('i'), Char('I'), Char('a'), Char('A'), Char('C')} {
        r := ModeCommand(key, pos);
      } else if key in {Char('h'), Char('l'), Char('0'), Char('$'), Char('w'), Char('W'), Char('b'), Char('B'), Char('e'), Char('E')} {
        r := MoveCommand(key, pos);
      } else if key in {Char('x'), Char('P'), Char('p'), Char('u'), Ctrl('r')} {
        r := EditCommand(key, pos);
      } else if key == Char('c') {
        op := Some(Change);
      } else if key == Char('d') {
        op := Some(Delete);
      } else if key == Char('y') {
        op := Some(Yank);
      } else if IsDigitKey(key) {
        m := DigitValue(key);
      } else {
        m := 1;
      }
    }

    /** `i`, `I`, `a`, `A`, `C` */
    method ModeCommand(key: Key, pos: int) returns (r: KeyResult)
      requires Entered(Model(), pos) && op.None?
      modifies this, register
      ensures Valid() && Became(ViSpec.ModeCommand(old(Model()), old(register.text), key, pos), r)
      decreases Rank(key), 0
    {
      if key == Char('i') {
        normal := false;
      } else if key == Char('I') {
        r := CallVi(Char('0'), None);
        if r == Raised {
          return;
        }
      } else if key == Char('a') {
        SetEditPos(pos + 1);
        normal := false;
      } else if key == Char('A') {
        r := CallVi(Char('$'), None);
        if r == Raised {
          return;
        }
        r := CallVi(Char('a'), None);
        if r == Raised {
          return;
        }
      } else if key == Char('C') {
        r := CallVi(Char('$'), Some(Change));
        if r == Raised {
          return;
        }
      }
      m := 1;
      r := Consumed;
    }

    /** `h`, `l`, `0`, `$`, `w`, `b`, `e` */
    method MoveCommand(key: Key, pos: int) returns (r: KeyResult)
      requires Entered(Model(), pos)
      modifies this`pos, this`m
      ensures Valid() && Became(ViSpec.MoveCommand(old(Model()), register.text, key, pos), r)
    {
      var text, last := this.text, |this.text| - 1;
      if key == Char('h') {
        SetEditPos(pos - m);
      } else if key == Char('l') {
        if pos < last {
          SetEditPos(pos + m);
        }
      } else if key == Char('0') {
        SetEditPos(0);
      } else if key == Char('$') {
        SetEditPos(last);
      } else if key == Char('w') || key == Char('W') {
        if |text| == 0 {
          return Raised;
        }
        var p := RepeatW(text, pos, m);
        SetEditPos(p);
      } else if key == Char('b') || key == Char('B') {
        if |text| == 0 {
          return Raised;
        }
        var p := RepeatB(text, pos, m);
        SetEditPos(p);
      } else if key == Char('e') || key == Char('E') {
        if pos == last {
          return Raised;
        }
        var p := RepeatE(text, pos, m);
        SetEditPos(p);
      }
      m := 1;
      r := Consumed;
    }

    /** `x`, `P`, `p`, `u`, `ctrl r` */
    method EditCommand(key: Key, pos: int) returns (r: KeyResult)
      requires Entered(Model(), pos)
      modifies this`text, this`pos, this`m, this`undoLvl
      ensures Valid() && Became(ViSpec.EditCommand(old(Model()), register.text, key, pos), r)
    {
      var text, last := this.text, |this.text| - 1;
      if key == Char('x') {
        var p := if pos == last then pos - 1 else pos;
        var t := DeleteChars(text, p, m);
        SetEditText(t);
        SetEditPos(p);
      } else if key == Char('P') {
        InsertYank(this.pos);
      } else if key == Char('p') {
        InsertYank(this.pos - 1);
      } else if key == Char('u') {
        if undoLvl > 0 {
          undoLvl := undoLvl - 1;
          SetEditText(undo[undoLvl]);
        }
      } else if key == Ctrl('r') {
        if undoLvl < |undo| - 1 {
          undoLvl := undoLvl + 1;
          SetEditText(undo[undoLvl]);
        }
      }
      m := 1;
      r := Consumed;
    }

    /** `insert_key(key)` */
    method InsertKey(key: Key) returns (r: KeyResult)
      requires Valid()
      modifies this, register
      ensures Valid() && Became(ViSpec.InsertKey(old(Model()), old(register.text), completer, key), r)
    {
      r := Consumed;
      if key == Esc {
        SetEditPos(pos - 1);
        normal := true;
        op := None;
      } else if key == Ctrl('a') {
        r := CallVi(Char('0'), None);
      } else if key == Ctrl('e') {
        r := CallVi(Char('$'), None);
      } else if key == Ctrl('u') {
        r := CallVi(Char('0'), Some(Delete));
      } else if key == Ctrl('k') {
        r := CallVi(Char('$'), Some(Delete));
      } else if key == Ctrl('y') {
        r := CallVi(Char('P'), None);
      } else if key == Ctrl('w') {
        r := CallVi(Char('b'), Some(Delete));
      } else if key == Ctrl('b') {
        r := CallVi(Char('b'), None);
      } else if key == Ctrl('f') {
        r := CallVi(Char('w'), None);
      } else if key == Tab {
        TabComplete();
      } else {
        r := Unhandled(key);
      }
    }

    /** `keypress(size, key)`; a key handed back goes on to the host widget. */
    method KeyPress(key: Key) returns (r: KeyResult)
      requires Valid()
      modifies this, register
      ensures Valid() && Became(ViSpec.KeyPress(old(Model()), old(register.text), completer, key), r)
    {
      if normal {
        r := NormalKey(key);
      } else {
        r := InsertKey(key);
      }
    }
  }
}
