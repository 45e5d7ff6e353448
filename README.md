# A verified model of the `ViEdit` widget of urwid-viedit

urwid-viedit adds a vi-like modal editing layer to urwid's single-line
`Edit` widget. `ViEdit` keeps this state:

- a **mode** (Normal or Insert);
- a **pending operator** (`c`, `d` or `y`, waiting for a motion);
- a one-digit **count** `m`;
- an **undo history** of text snapshots with a current index;
- a **completion record** for repeated Tab completion;
- one **register** (`yank_text`), a class attribute shared by every widget.

In Normal mode, `normal_key` interprets a key:

- the motions `h l 0 $ w b e`;
- the insert-mode entries `i I a A C`;
- the edits `x P p`;
- undo (`u`) and redo (`ctrl r`);
- the operators and the count digits.

In Insert mode, `insert_key` handles `esc` and a set of emacs-like chords. Each chord runs a Normal-mode key through `call_vi` and returns to Insert mode. Tab calls a completion callback. Any other key goes back to urwid's own `Edit`.

The project has six modules:

- **PySeq** (`pyseq.dfy`): Python's slicing and indexing on strings, including negative and out-of-range indices. The widget depends on them at its edges: `text[-1]`, `text[:-1]`, and `insert_yank(-1)`.
- **ViText** (`vitext.dfy`):
  - `get_text_sel`.
  - The three word motions `get_w`, `get_b` and `get_e`. Each is a `while` loop method proved equal to a recursive function, and that function is proved to land exactly where an independent predicate allows.
  - Their repetition by the count, as `for` loops.
  - The deletion loop of `x`.
- **ViSpec** (`vispec.dfy`): the key state machine as pure functions over an `Editor` value. A `Step` is a new editor, a register and a result: consumed, handed back to the host, or raised. The module also has `__init__` and a `Run` over a sequence of keys.
- **ViWidget** (`viedit.dfy`): the class `ViEdit`. Its fields are updated in place by methods that mirror the Python methods one by one. A `Register` object holds `yank_text`. In the source it is one class attribute, so the faithful configuration is a single `Register` that every widget holds; the class lets widgets hold separate registers too, and the two-widget example requires the shared one. Every method is proved to leave the widget and register exactly as the matching ViSpec function says.
- **ViProperties** (`viproperties.dfy`): what the keys do, stated in terms of the text, the cursor, the register, the count, the mode and the history, and proved from the functions.
- **ViExamples** (`viexamples.dfy`): concrete runs, e.g. `d` `w` then `P` on "hello world". It also has one method on two widgets that share a register.

Conventions the model makes explicit:

- A key is urwid's key name, split into its kinds: `Char(c)` for a printable character (named by itself, e.g. `w` or `$`), `Ctrl(l)` for `ctrl` with a letter, `Esc`, `Tab`, and `Other(name)` for every other name. `KeyName` gives back urwid's name and `ParseKey` reads a name; on the well-formed keys (`WellFormedKey`: a chord letter is lower-case, and `Other` holds only names of no other kind) the two are inverse, so comparing keys is comparing names. The widget only ever compares a key with fixed names, so this changes nothing about which keys are handled.

- urwid's setters are modelled as stated functions:
  - `set_edit_pos` clips the cursor into `[0, len(text)]`;
  - `set_edit_text` pulls a cursor past the new end back to it.
- Several key paths index the text out of range and raise `IndexError` inside the handler. That exception propagates out of `keypress`. The model ends such a key with the result `Raised` and the state as it was when the exception occurred. These paths are:
  - `w`/`b` on an empty text;
  - `e` with the cursor on the last character, or on an empty text;
  - the insert chords that run those keys.
- After such a raise through `call_vi`, the widget stays in Normal mode and the count is not reset. This is what the Python leaves behind.
- Where the code behaves differently from what a vi user would expect, the model follows the code:
  - The undo checkpoint in `normal_key` (`viedit.py:84-86`) appends the new snapshot after the WHOLE history. It does not drop the redo entries beyond the current index.
  - `l` is guarded only by `pos < last`. It may move the cursor to `len(text)`, one past the last character.
  - `h` has no guard of its own and relies on the setter's clamp to 0.
  - `w` and `b` on an empty text, and `e` on the last character, raise. There is no special case for an empty text.
  - `x` on a text of at most one character changes nothing, and `x` on the last character deletes the character before it.
  - `p` with the cursor at 0 calls `insert_yank(-1)`, which inserts before the last character.
  - The completion record is reused only when its `completed` text is non-empty.
  - Undo followed by redo restores the text only when there was something to undo: `undo_lvl > 0`, or an unsaved text that the checkpoint records.

## Model

| member | source | states |
|---|---|---|
| PySeq.Bound | urwid_viedit/viedit.py:47 | A Python slice bound falls in `[0, len]`, counting a negative bound from the end. |
| PySeq.Slice | urwid_viedit/viedit.py:45-47 | `text[i:j]` is never longer than the text, and is the plain slice when `0 <= i <= j <= len`. |
| PySeq.Take | urwid_viedit/viedit.py:45-47 | `s[:j]` is the plain prefix for `0 <= j <= len`, and its length is the normalised bound. |
| PySeq.Drop | urwid_viedit/viedit.py:45-47 | `s[i:]` is the plain suffix for `0 <= i <= len`, and its length is what the normalised bound leaves. |
| PySeq.At | urwid_viedit/viedit.py:89 | `s[i]` for `-len <= i < len` (the source's `text[pos - 1]` at 0 reads the last character); other indices raise. |
| PySeq.EndsWith | urwid_viedit/viedit.py:56 | `s.endswith(suffix)` holds exactly when the suffix fits and matches the last characters of `s` one by one. |
| ViText.TextSel | urwid_viedit/viedit.py:43-47 | `get_text_sel`: the inside is never longer than the text and is empty when the two positions are equal; for positions inside the text the two parts add up to the text's length. |
| ViText.TextSelParts | urwid_viedit/viedit.py:43-47 | For positions inside the text, `get_text_sel` returns the slice between the smaller and the larger position, and the text with that slice cut out. |
| ViText.TextSelSymmetric | urwid_viedit/viedit.py:45 | The order of the two positions does not matter, for any positions. |
| ViText.TextSelRebuilds | urwid_viedit/viedit.py:43-47 | The two parts share out the text's characters, and putting the inside back at the lower position rebuilds the text. |
| ViText.SkipForward | urwid_viedit/viedit.py:94-95 | One loop of `get_w`: every character passed has the given blankness, and the stop is the last index or a character of the other kind. |
| ViText.SkipBackward | urwid_viedit/viedit.py:89-90 | One loop of `get_b`: every character passed has the given blankness, and the stop is 0 or just after a character of the other kind. |
| ViText.SkipAhead | urwid_viedit/viedit.py:99-100 | One loop of `get_e`: every character stepped onto has the given blankness, and the stop is before the last index or before a character of the other kind. |
| ViText.WordForward | urwid_viedit/viedit.py:93-96 | `get_w` lands at or after the cursor and inside the text. |
| ViText.WordBackward | urwid_viedit/viedit.py:88-91 | `get_b` lands between 0 and the cursor. |
| ViText.WordEnd | urwid_viedit/viedit.py:98-101 | `get_e` lands at or after the cursor and before the last index. |
| ViText.WordForwardIff | urwid_viedit/viedit.py:93-96 | `get_w` returns `r` exactly when the characters up to `r` are a word followed by blanks and `r` starts the next word or is the last index. |
| ViText.WordBackwardIff | urwid_viedit/viedit.py:88-91 | `get_b` returns `r` exactly when the characters from `r` are a word followed by blanks and `r` starts a word or is 0. |
| ViText.WordEndIff | urwid_viedit/viedit.py:98-101 | `get_e` returns `r` exactly when the characters after the cursor up to `r` are blanks followed by a word and `r` ends that word or is the index before the last. |
| ViText.WordForwardN | urwid_viedit/viedit.py:107 | `m` applications of `get_w` stay in the text and never move back. |
| ViText.WordBackwardN | urwid_viedit/viedit.py:110 | `m` applications of `get_b` stay at or after 0 and never move forward. |
| ViText.WordEndN | urwid_viedit/viedit.py:164 | `m` applications of `get_e` stay before the last index and never move back. |
| ViText.WordForwardNAtLast | urwid_viedit/viedit.py:93-96 | At the last index, `w` stays put whatever the count. |
| ViText.WordBackwardNAtZero | urwid_viedit/viedit.py:88-91 | At 0, `b` stays put whatever the count. |
| ViText.GetW | urwid_viedit/viedit.py:93-96 | The two `while` loops of `get_w` compute the `w` motion. |
| ViText.GetB | urwid_viedit/viedit.py:88-91 | The two `while` loops of `get_b`, which read `text[pos - 1]` before testing `pos > 0`, compute the `b` motion. |
| ViText.GetE | urwid_viedit/viedit.py:98-101 | The two `while` loops of `get_e` compute the `e` motion. |
| ViText.RepeatW | urwid_viedit/viedit.py:158 | The counted `for` loop of `w` lands at `m` word starts ahead. |
| ViText.RepeatB | urwid_viedit/viedit.py:161 | The counted `for` loop of `b` lands at `m` word starts back. |
| ViText.RepeatE | urwid_viedit/viedit.py:164 | The counted `for` loop of `e` lands at `m` word ends ahead. |
| ViText.DeleteRun | urwid_viedit/viedit.py:149-150 | The deletion loop of `x`, from a start that is not negative, never makes the text longer. |
| ViText.DeleteRunRemoves | urwid_viedit/viedit.py:149-150 | Deleting `m` times at an index inside the text removes `text[p : p + m]`, clipped at the end. |
| ViText.DeleteRunShortText | urwid_viedit/viedit.py:148-150 | On a text of at most one character, the deletion at `-1` or `-2` that `x` performs leaves the text unchanged. |
| ViText.DeleteChars | urwid_viedit/viedit.py:149-150 | The `for` loop of `x` that cuts one character `m` times computes the deletion run. |
| ViSpec.SetPos | urwid_viedit/viedit.py:82 | The cursor setter changes only the cursor: a position inside the text is kept, a negative one becomes 0 and one past the end becomes the length. |
| ViSpec.SetText | urwid_viedit/viedit.py:121 | The text setter changes only the text and cursor, and keeps a cursor that still fits. |
| ViSpec.KeyName | urwid_viedit/viedit.py:214-217 | A key's urwid name. |
| ViSpec.ParseKey | urwid_viedit/viedit.py:214-217 | Reading a name always gives a well-formed key. |
| ViSpec.NameOfParsedKey | urwid_viedit/viedit.py:214-217 | Every name is the name of the key it parses to. |
| ViSpec.ParsedKeyName | urwid_viedit/viedit.py:214-217 | Every well-formed key parses back from its name. |
| ViSpec.KeyNamesDistinct | urwid_viedit/viedit.py:214-217 | Well-formed keys with the same name are the same key. |
| ViSpec.Cursor | urwid_viedit/viedit.py:75-82 | The local `pos` of `normal_key` lies before the end of the text, is the cursor when that is inside the text, and is -1 only on an empty text. |
| ViSpec.Checkpoint | urwid_viedit/viedit.py:84-86 | After the checkpoint, the current snapshot is the text and the old history is a prefix of the new one. A text that differs from the current snapshot is appended and its index, the old length, becomes current; otherwise nothing changes. |
| ViSpec.NormalKey | urwid_viedit/viedit.py:74-185 | A Normal-mode key keeps the editor well-formed, only extends the history, and is consumed or raises; a raise leaves Normal mode on. |
| ViSpec.Operate | urwid_viedit/viedit.py:119-125 | Applying an operator consumes the key and keeps the history and the count. |
| ViSpec.OperatorMotion | urwid_viedit/viedit.py:103-125 | With an operator pending, the key keeps the history; a raise changes nothing. |
| ViSpec.InsertYank | urwid_viedit/viedit.py:35-41 | Inserting the register keeps the editor well-formed and the history untouched. |
| ViSpec.Command | urwid_viedit/viedit.py:127-185 | Without an operator pending, a key only extends the history and is consumed or raises. |
| ViSpec.ModeCommand | urwid_viedit/viedit.py:127-138 | `i I a A C` only extend the history; a raise leaves Normal mode on. |
| ViSpec.AfterEnd | urwid_viedit/viedit.py:134-136 | The second half of `A` only extends the history; a raise leaves Normal mode on. |
| ViSpec.MoveCommand | urwid_viedit/viedit.py:139-165 | A motion never changes the text or the history, and a raising motion changes nothing. |
| ViSpec.EditCommand | urwid_viedit/viedit.py:147-175 | `x P p u ctrl r` keep the history, the mode and the register, and never raise. |
| ViSpec.CallVi | urwid_viedit/viedit.py:68-72 | `call_vi` ends in Normal mode exactly when the key it runs raised. |
| ViSpec.CompletionRequest | urwid_viedit/viedit.py:52-59 | The record survives exactly when it is non-empty, was made at the cursor and ends the text before it; the text handed on is the text before the cursor, less the last completion when the record survives. |
| ViSpec.TabComplete | urwid_viedit/viedit.py:49-66 | Without a callback nothing changes. A callback that raises only leaves the record cleared or kept. A result replaces the text before the cursor and puts the cursor after it, with the new completion recorded. |
| ViSpec.Chord | urwid_viedit/viedit.py:193-209 | Each chord runs one of `0 $ P b w`, and carries an operator, always `d`, exactly for `ctrl u`, `ctrl k` and `ctrl w`. |
| ViSpec.InsertKey | urwid_viedit/viedit.py:187-212 | An Insert-mode key keeps the editor well-formed and only extends the history. |
| ViSpec.KeyPress | urwid_viedit/viedit.py:214-217 | Any key keeps the editor well-formed and only extends the history. |
| ViSpec.Init | urwid_viedit/viedit.py:12-33 | A new widget has the given text and mode, a history holding only that text, the count 1, no operator, no record and an untouched register; in Normal mode its cursor is on the last character. |
| ViSpec.Run | urwid_viedit/viedit.py:214-217 | A session of keys, with handed-back keys applied by the host, keeps the editor well-formed and only extends the history. |
| ViWidget.Register.constructor | urwid_viedit/viedit.py:10 | The register starts empty. |
| ViWidget.ViEdit.constructor | urwid_viedit/viedit.py:12-33 | The new widget's fields and register are those of `Init`. |
| ViWidget.ViEdit.SetEditPos | urwid_viedit/viedit.py:82 | Updates only the cursor field, as `SetPos` says. |
| ViWidget.ViEdit.SetEditText | urwid_viedit/viedit.py:121 | Updates only the text and cursor fields, as `SetText` says. |
| ViWidget.ViEdit.InsertYank | urwid_viedit/viedit.py:35-41 | Updates the text and cursor fields in place, as `InsertYank` says. |
| ViWidget.ViEdit.TabComplete | urwid_viedit/viedit.py:49-66 | Updates the text, cursor and record fields in place, as `TabComplete` says. |
| ViWidget.ViEdit.CallVi | urwid_viedit/viedit.py:68-72 | Leaves the widget and shared register as `CallVi` says. |
| ViWidget.ViEdit.NormalKey | urwid_viedit/viedit.py:74-86 | Clamps, checkpoints and dispatches, leaving the widget and register as `NormalKey` says. |
| ViWidget.ViEdit.OperatorMotion | urwid_viedit/viedit.py:103-118 | Runs the counted motion loops and leaves the widget and register as `OperatorMotion` says. |
| ViWidget.ViEdit.FinishOperator | urwid_viedit/viedit.py:119-125 | With a selection, stores it in the register, cuts it for `c`/`d` and ends the operator as `Operate` says; without one, only ends the operator. |
| ViWidget.ViEdit.Command | urwid_viedit/viedit.py:127-185 | Leaves the widget and register as `Command` says. |
| ViWidget.ViEdit.ModeCommand | urwid_viedit/viedit.py:127-138 | Leaves the widget and register as `ModeCommand` says. |
| ViWidget.ViEdit.MoveCommand | urwid_viedit/viedit.py:139-165 | Changes only the cursor and count fields, as `MoveCommand` says. |
| ViWidget.ViEdit.EditCommand | urwid_viedit/viedit.py:147-175 | Changes only the text, cursor, count and undo index fields, as `EditCommand` says. |
| ViWidget.ViEdit.InsertKey | urwid_viedit/viedit.py:187-212 | Leaves the widget and register as `InsertKey` says. |
| ViWidget.ViEdit.KeyPress | urwid_viedit/viedit.py:214-217 | Leaves the widget and register as `KeyPress` says. |
| ViProperties.Entry | urwid_viedit/viedit.py:80-86 | On entry to `normal_key`, the cursor is pulled onto the last character. The history grows by the text exactly when it differs from the current snapshot, the undo index then points at the new entry and otherwise stays, and nothing else changes. |
| ViProperties.MotionSelects | urwid_viedit/viedit.py:103-117 | With an operator pending, each of `w b 0 $` selects the text between the cursor and the motion's end and puts the cursor at the lower end. |
| ViProperties.OperateRange | urwid_viedit/viedit.py:119-125 | An operator over `[lo, hi)` puts that slice in the register. `c`/`d` cut it, `y` keeps the text. The cursor goes to `lo`, the operator is cleared, and only `c` leaves Normal mode. |
| ViProperties.OperatorMotionRange | urwid_viedit/viedit.py:103-125 | For `d`/`c`/`y` followed by `w b 0 $` on a non-empty text, the register takes the slice between the cursor and the motion's end. The text loses it unless the operator is `y`, the cursor is at its start, and only `c` enters Insert mode. |
| ViProperties.OperatorOnEmptyText | urwid_viedit/viedit.py:113-125 | With an operator pending, `0` and `$` on an empty text do not raise: the register becomes empty, the text stays empty with the cursor at 0, the operator ends with the count kept, and only `c` enters Insert mode. |
| ViProperties.OperatorOtherKey | urwid_viedit/viedit.py:119-125 | Any other key after an operator only cancels it (`c` still enters Insert mode), keeping the text and the register. |
| ViProperties.CallViLands | urwid_viedit/viedit.py:68-72 | `call_vi('0')` and `call_vi('$')` never raise and return to Insert mode. Without an operator they keep the text and put the cursor at 0 or on the last character. |
| ViProperties.CallViAppends | urwid_viedit/viedit.py:131-133 | `call_vi('a')` keeps the text and puts the cursor one after the Normal-mode cursor, in Insert mode. |
| ViProperties.CallViOnEmptyText | urwid_viedit/viedit.py:68-72 | `call_vi` with an operator and `0` or `$` on an empty text empties the register and returns to Insert mode. |
| ViProperties.InsertModeKeys | urwid_viedit/viedit.py:127-136 | `i I a A` enter Insert mode with the text and register unchanged. The cursor goes to the Normal-mode cursor, to 0, one after it, or to the end. |
| ViProperties.ChangeToEnd | urwid_viedit/viedit.py:137-138 | `C` cuts from the cursor to the end into the register and enters Insert mode at the cursor; on an empty text it does not raise and empties the register. |
| ViProperties.StepMotionLands | urwid_viedit/viedit.py:139-146 | Given the local `pos` of `normal_key`, `h`, `l`, `0` and `$` never raise, reset the count and move only the cursor: `h` back by the count (clipped at 0), `l` forward by the count (clipped at the end) only from before the last character, `0` to 0, `$` to the last character. |
| ViProperties.ForwardMotionLands | urwid_viedit/viedit.py:157-159 | `w` raises exactly on an empty text; otherwise it moves only the cursor, to `m` word starts ahead. |
| ViProperties.BackwardMotionLands | urwid_viedit/viedit.py:160-162 | `b` raises exactly on an empty text; otherwise it moves only the cursor, to `m` word starts back. |
| ViProperties.EndMotionLands | urwid_viedit/viedit.py:163-165 | `e` raises exactly when the local `pos` is the last index; otherwise it moves only the cursor, to `m` word ends ahead. |
| ViProperties.CursorSteps | urwid_viedit/viedit.py:139-146 | From any state with no operator pending, `h l 0 $` move only the cursor, never raise and reset the count; `l` on the last character stays put, and from before it may reach the end of the text. |
| ViProperties.WordMotions | urwid_viedit/viedit.py:157-165 | From any state with no operator pending, `w b e` move only the cursor by the count's worth of words. `w` and `b` raise exactly on an empty text, `e` exactly on the last character. |
| ViProperties.OperatorKeyPends | urwid_viedit/viedit.py:178-180 | `c`, `d` and `y` only record the pending operator, keeping the count. |
| ViProperties.CountRule | urwid_viedit/viedit.py:178-185 | A digit key sets the count, an operator key keeps it, and every other consumed key resets it to 1. |
| ViProperties.ModeCommandKeeps | urwid_viedit/viedit.py:127-138 | `i I a A C` keep the history of a saved text, and unless they raise reset the count and leave no operator. |
| ViProperties.MoveCommandKeeps | urwid_viedit/viedit.py:139-165 | The motions keep the operator and reset the count unless they raise. |
| ViProperties.EditCommandKeeps | urwid_viedit/viedit.py:147-175 | `x P p u ctrl r` keep the operator and reset the count. |
| ViProperties.CommandKeeps | urwid_viedit/viedit.py:127-185 | Without an operator and from a saved text, every key keeps the history; digits set the count, `c d y` set the operator and keep the count, and any other consumed key resets the count. |
| ViProperties.HistoryOnlyGrowsAtCheckpoint | urwid_viedit/viedit.py:84-86 | A Normal-mode key grows the history by at most the current text, and only when it differs from the current snapshot. |
| ViProperties.UndoStep | urwid_viedit/viedit.py:166-170 | `u` moves the undo index back by one, stopping at 0, and makes the snapshot there the text. |
| ViProperties.RedoStep | urwid_viedit/viedit.py:171-175 | `ctrl r` moves the undo index forward by one, stopping at the newest snapshot, and makes it the text. |
| ViProperties.UndoThenRedo | urwid_viedit/viedit.py:166-175 | When there is something to undo, `u` then `ctrl r` restores the text and leaves the history at its checkpointed state. |
| ViProperties.RedoThenUndo | urwid_viedit/viedit.py:166-175 | With a redo available and the text saved, `ctrl r` then `u` restores the text, the history and the index. |
| ViProperties.DeleteUnderCursor | urwid_viedit/viedit.py:147-152 | On a text of at least two characters, `x` cuts up to `m` characters from the cursor, or from the one before it on the last character, and leaves the cursor there. |
| ViProperties.EditDeletes | urwid_viedit/viedit.py:147-152 | Given the local `pos`, `x` on a text of two or more characters cuts up to `m` characters from `pos` (from one before it on the last index), keeps the register and leaves the cursor at that start. |
| ViProperties.DeleteOnShortText | urwid_viedit/viedit.py:147-152 | On a text of at most one character, `x` leaves the text unchanged with the cursor at 0. |
| ViProperties.InsertYankAt | urwid_viedit/viedit.py:35-41 | `insert_yank(p)` inserts the register at `p`, or before the last character when `p` is -1. The cursor goes after the insertion, but to `len(yank) - 1` when `p` is -1. |
| ViProperties.PasteBefore | urwid_viedit/viedit.py:153-154 | `P` inserts the register at the cursor and puts the cursor after it. |
| ViProperties.PasteAfter | urwid_viedit/viedit.py:155-156 | `p` inserts the register one before the cursor. At cursor 0 it inserts before the last character. |
| ViProperties.PasteRestores | urwid_viedit/viedit.py:153-154 | `P` at the start of a cut puts back exactly what was cut. |
| ViProperties.DeleteThenPaste | urwid_viedit/viedit.py:103-154 | `d` with `w b 0`, or `$` from the first character, followed by `P` gives back the original text, with the cursor after the pasted part. |
| ViProperties.HandsBackOnlyUnknownInsertKeys | urwid_viedit/viedit.py:212-217 | A key goes on to the host exactly when the widget is in Insert mode and the key is none of its own. Such a key changes nothing. |
| ViProperties.EscapeThenInsert | urwid_viedit/viedit.py:188-191 | `esc` enters Normal mode with the cursor one back, and `i` then re-enters Insert mode there with the text unchanged. |
| ViProperties.ChordIsCallVi | urwid_viedit/viedit.py:193-209 | Each emacs-like chord is `call_vi` of its Normal-mode key and operator. |
| ViProperties.CallViRaises | urwid_viedit/viedit.py:88-96 | `call_vi` of `w` or `b` raises exactly on an empty text, and of `P` never. |
| ViProperties.CallViRaisesIff | urwid_viedit/viedit.py:68-72 | Of the keys the chords run, `call_vi` raises exactly with `w` or `b` on an empty text. |
| ViProperties.WordChords | urwid_viedit/viedit.py:204-209 | The chords that run a word motion are exactly `ctrl w`, `ctrl b` and `ctrl f`. |
| ViProperties.InsertKeysRaise | urwid_viedit/viedit.py:187-211 | For the chords and Tab in Insert mode, the key raises exactly when it is `ctrl w`, `ctrl b` or `ctrl f` on an empty text, and exactly then it leaves the widget in Normal mode. |
| ViProperties.CallViOperator | urwid_viedit/viedit.py:68-72 | `call_vi` with an operator and one of `w b 0 $` on a non-empty text performs the operator over the motion's range and returns to Insert mode. |
| ViProperties.EmacsKillsToStart | urwid_viedit/viedit.py:198-199 | `ctrl u` cuts the text before the cursor into the register and puts the cursor at 0; on an empty text it empties the register. |
| ViProperties.CallViCutsToEnd | urwid_viedit/viedit.py:68-72 | `call_vi('$', 'd')` on a non-empty text cuts from the cursor to the end into the register, keeps the cursor and returns to Insert mode. |
| ViProperties.EmacsKillsToEnd | urwid_viedit/viedit.py:200-201 | `ctrl k` cuts from the cursor to the end into the register; at the end of the text that is the last character, and on an empty text it empties the register. |
| ViProperties.CallViDeletesBack | urwid_viedit/viedit.py:68-72 | `call_vi('b', 'd')` on a non-empty text cuts the `m` words before the cursor into the register, puts the cursor where they began and returns to Insert mode. |
| ViProperties.EmacsDeletesWords | urwid_viedit/viedit.py:204-205 | `ctrl w` cuts back to the start of the `m`-th word before the cursor into the register. |
| ViProperties.TabCycles | urwid_viedit/viedit.py:49-64 | After a completion that extends the text, the record holds the added part at the new cursor. The next Tab hands the callback the same text as before, with the record kept. |
| ViProperties.SessionKeepsFirstSnapshot | urwid_viedit/viedit.py:29-30 | In any session, the first history entry stays the initial text. |
| ViExamples.DeleteFirstWord | urwid_viedit/viedit.py:103-125 | `d` `w` from the start cuts the first word and its blanks into the register. |
| ViExamples.DeleteWord | urwid_viedit/viedit.py:103-125 | `d` `w` on "hello world" leaves "world" and puts "hello " in the register. |
| ViExamples.DeleteWordThenPaste | urwid_viedit/viedit.py:153-154 | `P` afterwards restores "hello world" with the cursor at 6. |
| ViExamples.DeleteOnLastCharacter | urwid_viedit/viedit.py:147-152 | `x` on the "c" of "abc" deletes the "b". |
| ViExamples.CutWord | urwid_viedit/viedit.py:103-125 | On a widget, `d` `w` cuts from the cursor to the start of the `m`-th next word into the shared register and stays in Normal mode. |
| ViExamples.PasteInto | urwid_viedit/viedit.py:202-203 | On a widget in Insert mode, `ctrl y` pastes the shared register at the cursor, leaving the register as it was. |
| ViExamples.CutWordAcross | urwid_viedit/viedit.py:10 | A word cut with `d` `w` in one widget is what `ctrl y` pastes into another widget that shares the register. |

## Left out

- Rendering, layout and the other `Edit` keyword arguments (caption, alignment and so on): they are urwid's, not this widget's.
- The `size` argument of `keypress` is not modelled. The call to urwid's own `Edit.keypress` for a handed-back key is the `Host` parameter of `Run`, a function from text, cursor and key to a new text and cursor.
- urwid's `set_edit_pos` and `set_edit_text` are stated as the clamping functions `SetPos` and `SetText`. Their other effects, such as signals and redraw, are not modelled.
- The completion callback is a total function returning an optional string; no string stands for a callback that raised. The model does not cover a callback that mutates the record it is given, or one that returns something other than a string.
- The `completion_pos` entry described for the completion record is never written by the code and is not modelled.
- The `.` (repeat) command is a commented-out TODO in the source and has no behaviour to model.
- An exception raised by a key ends that key with the result `Raised`. What the caller of `keypress` does with the exception is outside the widget. `Run` ends the session there.
- ViWidget.ViEdit.TabComplete: updates the record in one step after the callback returns. The source writes it in three assignments interleaved with the setters, and no reader can see the difference.
- Repeating a motion `m + n` times equals `n` more after `m` is not stated as a lemma. The counted loops are proved against the repeat functions directly.
- ViWidget.Register: the class lets widgets hold different `Register` objects, which the source's single class attribute cannot; the faithful configuration is one `Register` held by every widget, and nothing in the model depends on it except the two-widget example, which requires it.
- Concurrency and several threads sharing the class-level register: the widget is single-threaded.
- `setup.py` (packaging) is not part of this model.
