/** The editor's key handling as a pure state machine: one function per handler
    of `ViEdit` (urwid_viedit/viedit.py), each mapping the editor state and the
    shared yank register before a key to the state, register and outcome after
    it.  The class in module ViWidget is proved to follow these functions. */
module ViSpec {
  import opened PySeq
  import opened ViText

  datatype Option<T> = None | Some(value: T)

  /** A pending operator: `c`, `d` or `y`. */
  datatype Operator = Change | Delete | Yank

  /** `completion_data`: empty, or the suffix the last tab completion added
      (`completed`) and the cursor it left (`position`). */
  datatype Completion = NoCompletion | Completed(completed: string, position: int)

  /** `completion_cb`: given the text to complete and the current record, the
      full completed text, or None when it raises (the error is swallowed). */
  type Completer = (string, Completion) -> Option<string>

  /** The state of one editor: `edit_text`, `edit_pos`, `normal`, `op`, `m`,
      `undo`, `undo_lvl` and `completion_data`. */
  datatype Editor = Editor(
    text: string,
    pos: int,
    normal: bool,
    op: Option<Operator>,
    m: int,
    undo: seq<string>,
    undoLvl: int,
    completion: Completion)

  /** A key as urwid names it: a printable character is named by itself,
      `ctrl` with a letter is a chord, `esc` and `tab` are named keys, and
      any other name (`enter`, `left`, `f1`, ...) is kept as it is. */
  datatype Key = Char(c: char) | Ctrl(letter: char) | Esc | Tab | Other(name: string)

  /** urwid's name for a key. */
  function KeyName(key: Key): string
  {
    match key
    case Char(c) => [c]
    case Ctrl(l) => "ctrl " + [l]
    case Esc => "esc"
    case Tab => "tab"
    case Other(name) => name
  }

  /** A key as the model writes it: a chord takes a lower-case letter, and
      `Other` is kept for the names that are none of the other kinds. */
  predicate WellFormedKey(key: Key)
  {
    match key
    case Ctrl(l) => 'a' <= l <= 'z'
    case Other(name) =>
      && |name| != 1 && name != "esc" && name != "tab"
      && !(|name| == 6 && name[..5] == "ctrl " && 'a' <= name[5] <= 'z')
    case _ => true
  }

  /** The key an urwid name stands for. */
  function ParseKey(name: string): (key: Key)
    ensures WellFormedKey(key)
  {
    if |name| == 1 then Char(name[0])
    else if |name| == 6 && name[..5] == "ctrl " && 'a' <= name[5] <= 'z' then Ctrl(name[5])
    else if name == "esc" then Esc
    else if name == "tab" then Tab
    else Other(name)
  }

  /** Every name is the name of the key it parses to. */
  lemma NameOfParsedKey(name: string)
    ensures KeyName(ParseKey(name)) == name
  {
    if |name| == 6 && name[..5] == "ctrl " && 'a' <= name[5] <= 'z' {
      assert name == name[..5] + [name[5]];
    }
  }

  /** Every well-formed key parses back from its name. */
  lemma ParsedKeyName(key: Key)
    requires WellFormedKey(key)
    ensures ParseKey(KeyName(key)) == key
  {
    match key
    case Ctrl(l) =>
      var name := KeyName(key);
      assert |name| == 6 && name[..5] == "ctrl " && name[5] == l;
    case Esc =>
      assert |KeyName(key)| == 3;
    case Tab =>
      assert |KeyName(key)| == 3 && KeyName(key)[0] == 't';
    case _ =>
  }

  /** Well-formed keys are told apart by their urwid names, so comparing keys
      is comparing names. */
  lemma KeyNamesDistinct(k1: Key, k2: Key)
    requires WellFormedKey(k1) && WellFormedKey(k2) && KeyName(k1) == KeyName(k2)
    ensures k1 == k2
  {
    ParsedKeyName(k1);
    ParsedKeyName(k2);
  }

  /** What became of a key: consumed, handed back to the host widget, or the
      handler raised IndexError (a motion read outside the text). */
  datatype KeyResult = Consumed | Unhandled(key: Key) | Raised

  /** The editor and the shared register after a key, and what became of it. */
  datatype Step = Step(ed: Editor, yank: string, result: KeyResult)

  /** The cursor lies within the text, the count is a digit, and the undo
      index points into the history. */
  predicate Valid(e: Editor)
  {
    && 0 <= e.pos <= |e.text|
    && 1 <= e.m <= 9
    && 0 <= e.undoLvl < |e.undo|
  }

  // ---------------------------------------------------------------------------
  // The host widget's setters, as urwid's Edit behaves

  /** `set_edit_pos`: the new cursor is clipped into `[0, |text|]`. */
  function SetPos(e: Editor, p: int): (r: Editor)
    ensures r == e.(pos := r.pos) && 0 <= r.pos <= |e.text|
    ensures 0 <= p <= |e.text| ==> r.pos == p
    ensures p < 0 ==> r.pos == 0
    ensures |e.text| < p ==> r.pos == |e.text|
  {
    e.(pos := if p < 0 then 0 else if p > |e.text| then |e.text| else p)
  }

  /** `set_edit_text`: a cursor past the new end is pulled back to it. */
  function SetText(e: Editor, t: string): (r: Editor)
    requires 0 <= e.pos
    ensures r == e.(text := t, pos := r.pos) && 0 <= r.pos <= |t|
    ensures e.pos <= |t| ==> r.pos == e.pos
  {
    e.(text := t, pos := if e.pos > |t| then |t| else e.pos)
  }

  // ---------------------------------------------------------------------------
  // Keys

  /** The keys that run other Normal-mode keys through `call_vi`; they rank
      above the keys they run, which bounds the recursion. */
  function Rank(key: Key): nat
  {
    if key == Char('I') || key == Char('A') || key == Char('C') then 1 else 0
  }

  /** The keys `1` to `9`. */
  predicate IsDigitKey(key: Key)
  {
    key.Char? && '1' <= key.c <= '9'
  }

  /** `int(key)` for a digit key. */
  function DigitValue(key: Key): int
    requires IsDigitKey(key)
  {
    key.c as int - '0' as int
  }

  /** The keys `insert_key` acts on; any other key goes back to the host. */
  predicate IsInsertModeKey(key: Key)
  {
    key in {Esc, Ctrl('a'), Ctrl('e'), Ctrl('u'), Ctrl('k'), Ctrl('y'), Ctrl('w'), Ctrl('b'), Ctrl('f'), Tab}
  }

  // ---------------------------------------------------------------------------
  // normal_key

  /** The local `pos` of `normal_key`: the cursor, moved back onto the last
      character when it sits at the end; -1 on an empty text. */
  function Cursor(e: Editor): (r: int)
    ensures r < |e.text| && (e.pos < |e.text| ==> r == e.pos)
    ensures 0 <= e.pos ==> -1 <= r && (0 < |e.text| ==> 0 <= r)
  {
    if e.pos >= |e.text| then |e.text| - 1 else e.pos
  }

  /** The state right after the start of `normal_key`, given the local `pos`:
      the cursor agrees with it except on an empty text. */
  predicate Entered(e: Editor, pos: int)
  {
    && Valid(e)
    && (if |e.text| == 0 then pos == -1 && e.pos == 0 else 0 <= pos == e.pos < |e.text|)
  }

  /** The undo checkpoint: a text that differs from the current snapshot is
      appended to the whole history and becomes current. */
  function Checkpoint(e: Editor): (r: Editor)
    requires Valid(e)
    ensures Valid(r) && r.text == e.text && r.pos == e.pos
    ensures r.undo[r.undoLvl] == e.text
    ensures e.undo <= r.undo
    ensures r.undoLvl == if e.undo[e.undoLvl] != e.text then |e.undo| else e.undoLvl
    ensures e.undo[e.undoLvl] == e.text ==> r == e
  {
    if e.undo[e.undoLvl] != e.text then e.(undoLvl := |e.undo|, undo := e.undo + [e.text]) else e
  }

  /** `normal_key(key)` */
  function NormalKey(e: Editor, yank: string, key: Key): (s: Step)
    requires Valid(e)
    ensures Valid(s.ed) && e.undo <= s.ed.undo
    ensures s.result == Consumed || s.result == Raised
    ensures s.result == Raised && e.normal ==> s.ed.normal
    decreases Rank(key), 2
  {
    var pos := Cursor(e);
    var e1 := Checkpoint(if e.pos >= |e.text| then SetPos(e, pos) else e);
    if e1.op.Some? then OperatorMotion(e1, yank, key, pos) else Command(e1, yank, key, pos)
  }

  /** The end of an operator: `c` switches to Insert mode, and the operator is
      cleared. */
  function EndOperator(e: Editor, op: Operator): Editor
  {
    e.(normal := if op == Change then false else e.normal, op := None)
  }

  /** An operator with the selection `sel` of its motion: the register takes
      the inside, and `c`/`d` leave the outside as the text. */
  function Operate(e: Editor, op: Operator, sel: (string, string)): (s: Step)
    requires Valid(e)
    ensures Valid(s.ed) && s.ed.undo == e.undo && s.ed.undoLvl == e.undoLvl && s.ed.m == e.m
    ensures s.result == Consumed
  {
    var e1 := if op == Yank then e else SetText(e, sel.1);
    Step(EndOperator(e1, op), sel.0, Consumed)
  }

  /** The operator branch of `normal_key` (a `c`, `d` or `y` is pending). */
  function OperatorMotion(e: Editor, yank: string, key: Key, pos: int): (s: Step)
    requires Entered(e, pos) && e.op.Some?
    ensures Valid(s.ed) && s.ed.undo == e.undo && s.ed.undoLvl == e.undoLvl
    ensures s.result == Consumed || s.result == Raised
    ensures s.result == Raised ==> s.ed == e
  {
    var text, op := e.text, e.op.value;
    if key == Char('w') || key == Char('W') then
      if |text| == 0 then Step(e, yank, Raised)
      else Operate(e, op, TextSel(text, pos, WordForwardN(text, pos, e.m)))
    else if key == Char('b') || key == Char('B') then
      if |text| == 0 then Step(e, yank, Raised)
      else
        var pos2 := WordBackwardN(text, pos, e.m);
        Operate(SetPos(e, pos2), op, TextSel(text, pos2, pos))
    else if key == Char('0') then Operate(SetPos(e, 0), op, TextSel(text, 0, pos))
    else if key == Char('$') then Operate(e, op, TextSel(text, pos, |text|))
    else Step(EndOperator(e, op), yank, Consumed)
  }

  /** The tail of every command except the operator and digit keys: the count
      goes back to 1. */
  function Done(e: Editor, yank: string): Step
  {
    Step(e.(m := 1), yank, Consumed)
  }

  /** `Done` after a `call_vi` that did not raise. */
  function DoneAfter(s: Step): (r: Step)
    requires Valid(s.ed)
    ensures Valid(r.ed) && r.ed.undo == s.ed.undo && r.ed.normal == s.ed.normal
    ensures r.result == (if s.result == Raised then Raised else Consumed) && r.yank == s.yank
  {
    if s.result == Raised then s else Done(s.ed, s.yank)
  }

  /** `insert_yank(p)`: the register is inserted at `p` (Python slicing), and
      the cursor goes just past it. */
  function InsertYank(e: Editor, yank: string, p: int): (r: Editor)
    requires Valid(e)
    ensures Valid(r) && r.undo == e.undo && r.undoLvl == e.undoLvl
  {
    SetPos(SetText(e, Take(e.text, p) + yank + Drop(e.text, p)), p + |yank|)
  }

  /** The command branch of `normal_key` (no operator is pending).  The
      source tests the keys one after another; they are distinct, so they are
      grouped here by kind. */
  function Command(e: Editor, yank: string, key: Key, pos: int): (s: Step)
    requires Entered(e, pos) && e.op.None?
    ensures Valid(s.ed) && e.undo <= s.ed.undo
    ensures s.result == Consumed || s.result == Raised
    ensures s.result == Raised && e.normal ==> s.ed.normal
    decreases Rank(key), 1
  {
    if key in {Char('i'), Char('I'), Char('a'), Char('A'), Char('C')} then ModeCommand(e, yank, key, pos)
    else if key in {Char('h'), Char('l'), Char('0'), Char('$'), Char('w'), Char('W'), Char('b'), Char('B'), Char('e'), Char('E')} then MoveCommand(e, yank, key, pos)
    else if key in {Char('x'), Char('P'), Char('p'), Char('u'), Ctrl('r')} then EditCommand(e, yank, key, pos)
    else if key == Char('c') then Step(e.(op := Some(Change)), yank, Consumed)
    else if key == Char('d') then Step(e.(op := Some(Delete)), yank, Consumed)
    else if key == Char('y') then Step(e.(op := Some(Yank)), yank, Consumed)
    else if IsDigitKey(key) then Step(e.(m := DigitValue(key)), yank, Consumed)
    else Done(e, yank)
  }

  /** The keys that enter Insert mode: `i`, `I`, `a`, `A`, `C`. */
  function ModeCommand(e: Editor, yank: string, key: Key, pos: int): (s: Step)
    requires Entered(e, pos) && e.op.None?
    ensures Valid(s.ed) && e.undo <= s.ed.undo
    ensures s.result == Consumed || s.result == Raised
    ensures s.result == Raised ==> s.ed.normal
    decreases Rank(key), 0
  {
    if key == Char('i') then Done(e.(normal := false), yank)
    else if key == Char('I') then DoneAfter(CallVi(e, yank, Char('0'), None))
    else if key == Char('a') then Done(SetPos(e, pos + 1).(normal := false), yank)
    else if key == Char('A') then
      var s1 := CallVi(e, yank, Char('$'), None);
      if s1.result == Raised then s1 else AfterEnd(s1)
    else if key == Char('C') then DoneAfter(CallVi(e, yank, Char('$'), Some(Change)))
    else Done(e, yank)
  }

  /** The second half of `A`: `call_vi('a')` once `$` has run. */
  function AfterEnd(s: Step): (r: Step)
    requires Valid(s.ed)
    ensures Valid(r.ed) && s.ed.undo <= r.ed.undo
    ensures r.result == Consumed || r.result == Raised
    ensures r.result == Raised ==> r.ed.normal
    decreases 0, 4
  {
    DoneAfter(CallVi(s.ed, s.yank, Char('a'), None))
  }

  /** The cursor motions: `h`, `l`, `0`, `$`, `w`, `b`, `e`.  `w` and `b` read
      `text[-1]` on an empty text, and `e` reads one past the last index when
      the cursor is on it; both raise IndexError. */
  function MoveCommand(e: Editor, yank: string, key: Key, pos: int): (s: Step)
    requires Entered(e, pos)
    ensures Valid(s.ed) && s.ed.text == e.text && s.ed.undo == e.undo && s.ed.undoLvl == e.undoLvl
    ensures s.result == Consumed || s.result == Raised
    ensures s.result == Raised ==> s.ed == e
  {
    var text, last := e.text, |e.text| - 1;
    if key == Char('h') then Done(SetPos(e, pos - e.m), yank)
    else if key == Char('l') then Done(if pos < last then SetPos(e, pos + e.m) else e, yank)
    else if key == Char('0') then Done(SetPos(e, 0), yank)
    else if key == Char('$') then Done(SetPos(e, last), yank)
    else if key == Char('w') || key == Char('W') then
      if |text| == 0 then Step(e, yank, Raised) else Done(SetPos(e, WordForwardN(text, pos, e.m)), yank)
    else if key == Char('b') || key == Char('B') then
      if |text| == 0 then Step(e, yank, Raised) else Done(SetPos(e, WordBackwardN(text, pos, e.m)), yank)
    else if key == Char('e') || key == Char('E') then
      if pos == last then Step(e, yank, Raised) else Done(SetPos(e, WordEndN(text, pos, e.m)), yank)
    else Done(e, yank)
  }

  /** The edits: `x`, `P`, `p`, and undo (`u`) and redo (`ctrl r`). */
  function EditCommand(e: Editor, yank: string, key: Key, pos: int): (s: Step)
    requires Entered(e, pos)
    ensures Valid(s.ed) && s.ed.undo == e.undo && s.ed.normal == e.normal
    ensures s.result == Consumed && s.yank == yank
  {
    var text, last := e.text, |e.text| - 1;
    if key == Char('x') then
      var p := if pos == last then pos - 1 else pos;
      Done(SetPos(SetText(e, DeleteRun(text, p, e.m)), p), yank)
    else if key == Char('P') then Done(InsertYank(e, yank, e.pos), yank)
    else if key == Char('p') then Done(InsertYank(e, yank, e.pos - 1), yank)
    else if key == Char('u') then
      if e.undoLvl > 0 then
        var e1 := e.(undoLvl := e.undoLvl - 1);
        Done(SetText(e1, e1.undo[e1.undoLvl]), yank)
      else Done(e, yank)
    else if key == Ctrl('r') then
      if e.undoLvl < |e.undo| - 1 then
        var e1 := e.(undoLvl := e.undoLvl + 1);
        Done(SetText(e1, e1.undo[e1.undoLvl]), yank)
      else Done(e, yank)
    else Done(e, yank)
  }

  /** `call_vi(key, op)`: run a Normal-mode key with the operator `op`, then
      go back to Insert mode unless the key raised. */
  function CallVi(e: Editor, yank: string, key: Key, op: Option<Operator>): (s: Step)
    requires Valid(e)
    ensures Valid(s.ed) && e.undo <= s.ed.undo
    ensures s.result == Consumed || s.result == Raised
    ensures s.ed.normal <==> s.result == Raised
    decreases Rank(key), 3
  {
    var s := NormalKey(e.(normal := true, op := op), yank, key);
    if s.result == Raised then s else s.(ed := s.ed.(normal := false))
  }

  // ---------------------------------------------------------------------------
  // tab_complete

  /** The text handed to the completer and the record it sees: the text
      before the cursor, less the last completion when the record still
      matches; otherwise the record is cleared. */
  function CompletionRequest(e: Editor): (r: (string, Completion))
    requires Valid(e)
    ensures r.1 == e.completion || r.1 == NoCompletion
    ensures r.1 != NoCompletion <==>
      && e.completion.Completed?
      && e.completion.completed != []
      && e.completion.position == e.pos
      && EndsWith(e.text[..e.pos], e.completion.completed)
    ensures r.1 == NoCompletion ==> r.0 == e.text[..e.pos]
    ensures r.1 != NoCompletion ==> r.0 + e.completion.completed == e.text[..e.pos]
  {
    var before := Take(e.text, e.pos);
    match e.completion
    case NoCompletion => (before, NoCompletion)
    case Completed(c, p) =>
      if c == [] || p != e.pos || !EndsWith(before, c) then (before, NoCompletion)
      else
        assert before[..|before| - |c|] + c == before;
        (Take(before, -|c|), e.completion)
  }

  /** `tab_complete()` */
  function TabComplete(e: Editor, cb: Option<Completer>): (r: Editor)
    requires Valid(e)
    ensures Valid(r)
    ensures cb == None ==> r == e
    ensures r.normal == e.normal && r.op == e.op && r.m == e.m
    ensures r.undo == e.undo && r.undoLvl == e.undoLvl
    ensures cb.Some? ==>
      var (before, data) := CompletionRequest(e);
      match cb.value(before, data)
      case None => r == e.(completion := data)
      case Some(complete) =>
        && r.text == complete + e.text[e.pos..]
        && r.pos == |complete|
        && r.completion == Completed(Drop(complete, |before|), r.pos)
  {
    if cb.None? then e
    else
      var (before, data) := CompletionRequest(e);
      match cb.value(before, data)
      case None => e.(completion := data)
      case Some(complete) =>
        var e1 := SetPos(SetText(e, complete + Drop(e.text, e.pos)), |complete|);
        e1.(completion := Completed(Drop(complete, |before|), e1.pos))
  }

  // ---------------------------------------------------------------------------
  // insert_key and keypress

  /** The emacs-like chords of Insert mode. */
  predicate IsChord(key: Key)
  {
    key in {Ctrl('a'), Ctrl('e'), Ctrl('u'), Ctrl('k'), Ctrl('y'), Ctrl('w'), Ctrl('b'), Ctrl('f')}
  }

  /** The Normal-mode key a chord runs through `call_vi`, and the operator it
      runs it with. */
  function Chord(key: Key): (r: (Key, Option<Operator>))
    requires IsChord(key)
    ensures r.0 in {Char('0'), Char('$'), Char('P'), Char('b'), Char('w')}
    ensures r.1.Some? <==> key in {Ctrl('u'), Ctrl('k'), Ctrl('w')}
    ensures r.1.Some? ==> r.1 == Some(Delete)
  {
    if key == Ctrl('a') then (Char('0'), None)
    else if key == Ctrl('e') then (Char('$'), None)
    else if key == Ctrl('u') then (Char('0'), Some(Delete))
    else if key == Ctrl('k') then (Char('$'), Some(Delete))
    else if key == Ctrl('y') then (Char('P'), None)
    else if key == Ctrl('w') then (Char('b'), Some(Delete))
    else if key == Ctrl('b') then (Char('b'), None)
    else (Char('w'), None)
  }

  /** `insert_key(key)`: the chords are tested in the order of the table
      above. */
  function InsertKey(e: Editor, yank: string, cb: Option<Completer>, key: Key): (s: Step)
    requires Valid(e)
    ensures Valid(s.ed) && e.undo <= s.ed.undo
  {
    if key == Esc then Step(SetPos(e, e.pos - 1).(normal := true, op := None), yank, Consumed)
    else if IsChord(key) then CallVi(e, yank, Chord(key).0, Chord(key).1)
    else if key == Tab then Step(TabComplete(e, cb), yank, Consumed)
    else Step(e, yank, Unhandled(key))
  }

  /** `keypress(size, key)`: the handler of the current mode; a key it hands
      back goes on to the host widget. */
  function KeyPress(e: Editor, yank: string, cb: Option<Completer>, key: Key): (s: Step)
    requires Valid(e)
    ensures Valid(s.ed) && e.undo <= s.ed.undo
  {
    if e.normal then NormalKey(e, yank, key) else InsertKey(e, yank, cb, key)
  }

  // ---------------------------------------------------------------------------
  // Construction and sessions

  /** `__init__`: the history starts with the initial text, and an editor
      that starts in Normal mode runs `$`. */
  function Init(text: string, pos: int, normalMode: bool, yank: string): (s: Step)
    ensures Valid(s.ed) && s.ed.undo == [text] && s.ed.undoLvl == 0
    ensures s.ed.text == text && s.ed.normal == normalMode && s.ed.op == None && s.ed.m == 1
    ensures s.yank == yank && s.result == Consumed
    ensures s.ed.completion == NoCompletion
    ensures normalMode ==> s.ed.pos == if |text| == 0 then 0 else |text| - 1
  {
    var e := SetPos(Editor(text, 0, normalMode, None, 1, [text], 0, NoCompletion), pos);
    if normalMode then NormalKey(e, yank, Char('$')) else Step(e, yank, Consumed)
  }

  /** What the host widget does with a key handed back to it: the new text
      and cursor, applied through the two setters. */
  type Host = (string, int, Key) -> (string, int)

  /** A session: the keys in turn, each handed-back key applied by the host;
      a key that raises ends the session. */
  function Run(e: Editor, yank: string, cb: Option<Completer>, host: Host, keys: seq<Key>): (s: Step)
    requires Valid(e)
    ensures Valid(s.ed) && e.undo <= s.ed.undo
    decreases |keys|
  {
    if keys == [] then Step(e, yank, Consumed)
    else
      var s1 := KeyPress(e, yank, cb, keys[0]);
      if s1.result == Raised then s1
      else
        var e1 := if s1.result.Unhandled? then
          var (t, p) := host(s1.ed.text, s1.ed.pos, keys[0]); SetPos(SetText(s1.ed, t), p)
        else s1.ed;
        Run(e1, s1.yank, cb, host, keys[1..])
  }
}
