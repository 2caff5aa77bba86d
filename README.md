# ugit utility controllers in Dafny

This project models the state logic of `ugitlibs/utilcontroller.py` from the
ugit (later git-cola) repository browser. The file's GUI signal wiring is left
out. What remains are three small state machines, each stated over strings,
sequences and maps:

- **Log-window search** (`LogWindow`, `log_window.dfy`). The log window keeps
  one integer, the search offset, that moves through the text of its output
  pane. Find-next searches the lower-cased text forward from the offset,
  ignoring case. Find-previous searches backward up to the offset, and an
  offset of 0 means "the end of the text". On a miss, both reset the offset
  and ask whether to wrap around. Typing in the search line restarts the
  search from 0. Clicking in the pane moves the offset to the click.
  The methods of `LogWindowController` follow the handlers statement by
  statement, recursive retry included. Each is proved equal to a pure
  function (`NextSearch`/`ForwardFrom`, `PrevSearch`), and the lemmas state
  what those functions find.
- **Revision finder** (`FindRevisions`, `find_revisions.dfy`). This is a
  linear prefix search over the revision ids of the full log. Input shorter
  than two characters is ignored. The first revision in list order that starts
  with the input is shown and remembered as `sha1`, unless it already is the
  remembered one. When no revision matches, the repository's `show` of the
  text is displayed instead, and `sha1` is kept. So a later lookup of the
  remembered revision leaves the miss's output on screen. A 200 ms debounce and
  the `updates_enabled` guard are kept as fields of the controller class.
- **Options save/rollback** (`Options`, `options.dfy`). There are three
  configuration models: the caller's, a working clone and a backup clone.
  Saving writes out and hands back exactly the keys whose value moved away
  from the backup. Cancelling restores the backup and re-announces the four
  font keys to the caller, with its notification flag saved and restored.
  When the dialog opens, each font's point size is read from the second
  comma-separated field of the font string.

`strings.dfy` (module `Strings`) holds the Python string operations these rely on:
`lower`, `strip`, `index`, `rindex`, `split(',')[1]` and `int`.

Outside collaborators are parameters:
- The user's yes/no replies are a `seq<bool>`. A question asked after the
  replies run out is answered "no". This matches the default the find-next
  dialog offers.
- Clock readings are integer milliseconds.
- The repository's `show` and `get_commit_diff` are function-valued constants.
- The clipboard is a "last copied" field.

The configuration model class is not part of this model. Its operations are
modelled on these assumptions:
- `get_param` of an absent key gives a null value.
- `set_param` stores the value and, while notification is on, announces the key.
- `copy_params(other, keys)` calls `set_param(k, other.get_param(k))` for each key in turn.
- `save_config_param` appends the key to a record of persisted keys.
- `clone` copies the values, the key list and the notification flag.

## Model

| member | source | states |
|---|---|---|
| `Strings.StripEmptyIff` | ugitlibs/utilcontroller.py:328-329 | `strip()` gives the empty string exactly when the text is all whitespace, so `if not text` is a blank-input test |
| `Strings.Lower` | ugitlibs/utilcontroller.py:328 | `str.lower` keeps the length and maps each character on its own: A–Z to a–z, everything else unchanged |
| `Strings.Strip` | ugitlibs/utilcontroller.py:328 | the result is the input with exactly its leading whitespace run and its trailing whitespace run removed: a contiguous slice starting after the leading whitespace, all-whitespace margins, and non-whitespace ends when not empty |
| `Strings.IndexOf` | ugitlibs/utilcontroller.py:346 | `str.index`: the result is an occurrence and no earlier index is one; `None` (Python raises) exactly when there is no occurrence |
| `Strings.RIndexOf` | ugitlibs/utilcontroller.py:378 | `str.rindex`: the result is an occurrence and no later index is one; `None` exactly when there is none |
| `Strings.SecondField` | ugitlibs/utilcontroller.py:229 | `split(',')[1]` fails exactly when the text has no comma, and the field holds no comma |
| `Strings.SecondFieldOf` | ugitlibs/utilcontroller.py:229 | for `first,field[,...]` with comma-free `first` and `field`, the second field is `field` |
| `Strings.ParseInt` | ugitlibs/utilcontroller.py:229 | `int()`: a stripped text of digits reads as their decimal value; a negative result needs a leading `-`; a text starting with anything but a digit or a sign is rejected |
| `Strings.ParseIntRoundTrip` | ugitlibs/utilcontroller.py:229 | `int()` of a printed integer gives that integer back |
| `Strings.ParseIntAcceptsOnly` | ugitlibs/utilcontroller.py:229 | whatever `int()` accepts is, once stripped, a digit or sign, then only digits and whitespace with no whitespace after the first digit, ending in a digit; so `12pt`, `5x`, `1 2` and `-` are rejected |
| `Strings.ParseIntSpaceAfterSign` | ugitlibs/utilcontroller.py:229 | as in Python 2, whitespace between the sign and the digits is skipped: `int("- 5")` is -5 |
| `LogWindow.Pattern` | ugitlibs/utilcontroller.py:328-329 | the pattern (lower-cased, stripped search text) is empty exactly when the search text is blank |
| `LogWindow.SelectionStart` | ugitlibs/utilcontroller.py:398-400 | the selection start is the smaller of the cursor's anchor and position |
| `LogWindow.NextSearch` | ugitlibs/utilcontroller.py:327-367 | every selection find-next makes covers an occurrence of the pattern in the lower-cased text, and the new offset is its end, within the text; without a selection the offset is 0 or unchanged; at most one more question than replies is asked |
| `LogWindow.ForwardFrom` | ugitlibs/utilcontroller.py:344-367 | the search step after the bounds check: a selection covers an occurrence and the offset moves to its end; a miss leaves the offset at 0 |
| `LogWindow.SearchEnd` | ugitlibs/utilcontroller.py:373-376 | find-previous searches up to the offset, or up to the end of the text when the offset is 0 or past the end |
| `LogWindow.PrevSearch` | ugitlibs/utilcontroller.py:369-396 | every selection find-previous makes covers an occurrence, and the offset becomes its start; without a selection the offset is 0 (unless the pattern is blank) |
| `LogWindow.BlankPatternIsNoOp` | ugitlibs/utilcontroller.py:328-329 | with a blank search text, find-next and find-previous change nothing and ask nothing (likewise lines 370-371) |
| `LogWindow.NextFindsFirst` | ugitlibs/utilcontroller.py:344-367 | when the pattern fits after the offset and occurs there, find-next asks nothing and selects the lowest occurrence at or after the offset as [m, m+len); the offset becomes m+len <= len(output) |
| `LogWindow.NextMissWrapsToStart` | ugitlibs/utilcontroller.py:344-358 | with no occurrence at or after the offset, find-next sets the offset to 0 and asks; "yes" is a fresh find-next from 0 with the remaining replies |
| `LogWindow.NextPastEndAsksFirst` | ugitlibs/utilcontroller.py:331-342 | when offset+len(pattern) > len(output), find-next asks first; "no" leaves the offset where it was, "yes" searches from 0 |
| `LogWindow.NextFromZeroIsForward` | ugitlibs/utilcontroller.py:331-358 | with a pattern longer than the text, find-next from offset 0 and its search step give the same outcome |
| `LogWindow.NextLongPatternOnlyAsks` | ugitlibs/utilcontroller.py:331-358 | a pattern longer than the text (any search in an empty pane) never selects anything: find-next asks once more than the leading "yes" replies, and the offset is kept only when the first answer is "no" |
| `LogWindow.NextWithYesFindsAnyOccurrence` | ugitlibs/utilcontroller.py:331-358 | if the pattern occurs anywhere, a find-next whose first question is answered "yes" selects an occurrence |
| `LogWindow.PrevFromZeroIsFromEnd` | ugitlibs/utilcontroller.py:373-374 | find-previous from offset 0 behaves exactly as from len(output) |
| `LogWindow.PrevFindsLast` | ugitlibs/utilcontroller.py:376-396 | when some occurrence lies inside output[:offset], find-previous asks nothing, selects the last such occurrence and sets the offset to its start |
| `LogWindow.PrevMissWrapsToEnd` | ugitlibs/utilcontroller.py:376-388 | with no occurrence inside output[:offset], find-previous sets the offset to 0 and asks; "yes" is a fresh find-previous from the end of the text |
| `LogWindow.LogWindowController.constructor` | ugitlibs/utilcontroller.py:292-313 | the window opens with an empty search text and offset 0 |
| `LogWindow.LogWindowController.Reset` | ugitlibs/utilcontroller.py:324-325 | the offset becomes 0 and nothing else changes |
| `LogWindow.LogWindowController.Clear` | ugitlibs/utilcontroller.py:315-317 | the pane is emptied and the offset becomes 0 |
| `LogWindow.LogWindowController.CursorPositionChanged` | ugitlibs/utilcontroller.py:398-400 | the offset becomes the start of the pane's new selection |
| `LogWindow.LogWindowController.Next` | ugitlibs/utilcontroller.py:327-367 | the new offset, the selection and the number of questions are those of `NextSearch` on the old offset; text and search text are untouched |
| `LogWindow.LogWindowController.Prev` | ugitlibs/utilcontroller.py:369-396 | the new offset, the selection and the number of questions are those of `PrevSearch` on the old offset |
| `LogWindow.LogWindowController.InstaSearch` | ugitlibs/utilcontroller.py:319-322 | the search text becomes the typed text and the offset is set to 0; find-next from 0 runs only when the stripped, lower-cased text is longer than 2 characters |
| `FindRevisions.FirstMatch` | ugitlibs/utilcontroller.py:105-108 | the result is the lowest index whose revision starts with the input; `None` exactly when no revision does |
| `FindRevisions.FindOutcome` | ugitlibs/utilcontroller.py:103-115 | input shorter than 2 changes nothing; otherwise a matching revision (the first in list order) becomes `sha1`, or is already the last revision shown (`sha1`); with no match the list is emptied, `show(input)` is displayed and `sha1` is kept |
| `FindRevisions.FindIdempotent` | ugitlibs/utilcontroller.py:117-121 | looking the same text up twice leaves the same state as looking it up once, because the `sha1` guard stops a second show |
| `FindRevisions.FindEffect` | ugitlibs/utilcontroller.py:103-115 | a lookup never changes the revision line; input shorter than two characters changes nothing; a newly displayed revision has the input as a prefix |
| `FindRevisions.ShowEffect` | ugitlibs/utilcontroller.py:117-129 | afterwards the last revision shown (`sha1`) is the one at `idx`; if it already was, nothing changes, otherwise the list holds its summary, the text its diff and the clipboard its id |
| `FindRevisions.SelectEffect` | ugitlibs/utilcontroller.py:131-136 | with updates enabled and a last revision shown (`sha1` set), the revision line and the clipboard get its id; otherwise nothing changes; the display is never touched |
| `FindRevisions.RematchAfterMissKeepsContent` | ugitlibs/utilcontroller.py:103-136 | a miss keeps `sha1`: after a hit, a miss, then the same hit, nothing changes, so the list stays empty and the pane shows the miss's `show` output while `sha1` names the match; a cursor move then writes that match into the revision line |
| `FindRevisions.SelectAfterShow` | ugitlibs/utilcontroller.py:131-136 | after a revision is shown, a cursor move puts exactly that revision into the revision line and onto the clipboard |
| `FindRevisions.FindRevisionsController.constructor` | ugitlibs/utilcontroller.py:83-97 | the dialog opens with no revision shown, updates enabled and the clock at the opening time |
| `FindRevisions.FindRevisionsController.FindRevision` | ugitlibs/utilcontroller.py:99-115 | the revision line holds the typed text; a keystroke within 200 ms of `last_time` only advances `last_time`; otherwise `last_time` is kept and the state becomes the lookup of that text; `updates_enabled` is true on return |
| `FindRevisions.FindRevisionsController.ShowRevision` | ugitlibs/utilcontroller.py:117-129 | a no-op when `sha1` is set and equals the revision; otherwise the list holds only its summary, its diff is displayed and copied, and `sha1` becomes it; `updates_enabled` is true on return |
| `FindRevisions.FindRevisionsController.SelectSummary` | ugitlibs/utilcontroller.py:131-136 | does nothing while updates are disabled or `sha1` is unset; otherwise puts `sha1` into the revision line and onto the clipboard |
| `Options.Overlay` | ugitlibs/utilcontroller.py:259 | after copying `keys` from a source, the listed keys read as in the source and every other key as before |
| `Options.ChangedKeys` | ugitlibs/utilcontroller.py:247-254 | every collected key is a config key whose working value differs from the backup, and no more keys are collected than there are config keys |
| `Options.ChangedKeysExactly` | ugitlibs/utilcontroller.py:247-254 | a key is collected for saving exactly when it is a config key whose working value differs from the backup value |
| `Options.ChangedKeysInOrder` | ugitlibs/utilcontroller.py:248-254 | the collected keys equal a front-to-back filter of the config keys, so they come in `get_config_params` order |
| `Options.SaveTouchesOnlyChanged` | ugitlibs/utilcontroller.py:256-259 | after a save, a changed key reads as the working value in the caller's model and every other key keeps the caller's value |
| `Options.RestoredHasNoChanges` | ugitlibs/utilcontroller.py:263-265 | once the backup is restored over the config keys, no key differs from the backup, so a save would write nothing |
| `Options.FontSize` | ugitlibs/utilcontroller.py:229 | reading the size fails for lack of a field exactly when the font string has no comma; the field is read by `ParseInt` |
| `Options.FontSizeRoundTrip` | ugitlibs/utilcontroller.py:229 | a font string `family,size[,...]` gives back `size` |
| `Options.RefreshFont` | ugitlibs/utilcontroller.py:227-231 | an unset or empty font changes nothing; a set font fails exactly when its size cannot be read, with that error; otherwise its `.size` key holds the size and no other key changes |
| `Options.Refreshed` | ugitlibs/utilcontroller.py:226-243 | a bad UI font is reported before the diff font is read; on success only the two `.size` keys can change |
| `Options.RefreshedSizes` | ugitlibs/utilcontroller.py:226-243 | for fonts written `family,size[,...]` (as `QFont.toString()` writes them), refreshing sets `fontui.size` and `fontdiff.size` to those sizes and no other key |
| `Options.ConfigModel.SetNotify` | ugitlibs/utilcontroller.py:270-278 | the notification flag takes the given value and nothing else changes, so `tell_parent_model` can switch it on and put it back |
| `Options.ConfigModel.SetParam` | ugitlibs/utilcontroller.py:276-277 | the key takes the value; the key is announced only while notification is on |
| `Options.ConfigModel.SaveConfigParam` | ugitlibs/utilcontroller.py:257 | the key is appended to the persisted keys and nothing else changes |
| `Options.ConfigModel.CopyParams` | ugitlibs/utilcontroller.py:259 | the values become the overlay of the source's values for `keys`, announced in order while notification is on |
| `Options.ConfigModel.Clone` | ugitlibs/utilcontroller.py:149 | a fresh model with the same values, key list and notification flag |
| `Options.FontSizeOf` | ugitlibs/utilcontroller.py:229 | a configured value that is not text has no `split`, the `NotText` error; text is read by `FontSize` |
| `Options.RefreshFontOf` | ugitlibs/utilcontroller.py:227-231 | one block of `refresh_view`: the model's values become those of `RefreshFont`, or its error is reported with nothing changed; the `.size` key is announced exactly when notification is on and the font is set and readable |
| `Options.RefreshView` | ugitlibs/utilcontroller.py:226-243 | the working model's values become those of `Refreshed`, or the error Python would raise is reported; the `.size` keys set are announced in order while notification is on |
| `Options.Open` | ugitlibs/utilcontroller.py:145-224 | the working model is a refreshed clone of the caller's and the backup is a clone of the working model, both with the caller's notification flag; a font without a readable size yields the error and no dialog |
| `Options.OptionsController.SaveSettings` | ugitlibs/utilcontroller.py:247-260 | the keys persisted are exactly the changed config keys in order; the caller's model receives exactly those keys; the dialog closes as accepted |
| `Options.OptionsController.RestoreSettings` | ugitlibs/utilcontroller.py:263-266 | the working model equals the backup on every backup config key and is otherwise unchanged; then the font keys are pushed as `TellParentModel` states |
| `Options.OptionsController.TellParentModel` | ugitlibs/utilcontroller.py:268-278 | the caller's model changes only on the four font keys, which take the working values and are all announced; its notification flag ends as it began |

## Left out

- Qt widgets, dialogs, `QFont` and the GUI plumbing are not modelled. That
  covers `exec_`, `show`, `setFont`, `selectAll`, the message texts,
  `set_diff_font`, `choose_branch` and the `find_revisions`, `update_options`
  and `log_window` entry points. It also covers the observer wiring
  (`model_to_view`, `add_signals`, `add_actions`, `add_callbacks`, and the
  seventeen-key widget table), which belongs to the toolkit and to the
  observer base class.
- Signals that fire while a handler writes its own widgets are not modelled.
  For example, `setTextCursor` fires `cursorPositionChanged` and `clear`
  fires `itemSelectionChanged`. Each handler runs to completion on its own.
  `updates_enabled` is still set and cleared exactly where the source does
  it, and `SelectSummary` honours it.
- `SelectCommitsController` (`select_commits`, `commit_sha1_selected`) is left
  out. Its result comes from `get_selection_list`, `get_selected_row` and
  `get_revision_sha1`, which are not part of this model.
- `update_size` is left out. It depends on `apply_font_size` and on the
  `QFont` strings of the combo boxes, neither of which is part of this model.
- The widget side of `refresh_view` is left out: the spin boxes, the font
  combos and the base class's `refresh_view`. Only the font-size parse and
  the `.size` keys it sets are modelled.
- FindRevisions.FindRevisionsController.FindRevision: the debounce uses integer
  milliseconds, not floating-point seconds. Both `time.time()` readings of
  one keystroke are one value. As in the source, `last_time` advances only
  when a keystroke is dropped.
- LogWindow.LogWindowController.Next: under Python 2, `str()` of the pane's text (line 330) raises on a non-ASCII character, so find-next then stops with nothing changed. The model searches any text.
- LogWindow.LogWindowController.Prev: the same `str()` at line 372 raises on non-ASCII text. The model searches any text.
- FindRevisions.FindRevisionsController.FindRevision: `str()` of the revision line (line 103) raises on non-ASCII input, so the lookup stops after the debounce check. The model looks up any text.
- Case folding and whitespace: `lower` maps only A–Z, and `strip` removes
  only space and \t, \n, \v, \f, \r. These are the rules for Python 2 byte
  strings. Unicode case folding and Unicode whitespace are not modelled.
- Python's cross-type equality (`True == 1`) is not modelled. Values of
  different kinds always count as different when the options are saved.
- Options.ConfigModel.CopyParams: requires that the source model is a different
  object. Both callers pass distinct clones.
