# RawLineEdit in Dafny

RawLineEdit is an editor plugin for seeing and editing line endings. It
re-reads a file into a read-only scratch view where carriage returns are left
in the text. Optionally it also puts a visible marker `¬` in front of every
line feed ("glyph mode"). Commands then strip or add carriage returns on the
selected lines. When the raw view is saved, the marker is removed before the
write and put back after it.

This project models the core of `raw_line_edit.py`:

- `Glyph` holds the marker codec. It adds the marker before each line feed
  and strips marker–line-feed pairs.
- `CarriageReturns` holds the two per-line rewrites. Stripping reduces
  `\r*T` to `T`. Adding turns `(?<!\r)T` into `\rT`. `T` is the terminator:
  `¬\n` in glyph mode and `\n` otherwise. Each regular-expression
  substitution is modelled as the left-to-right scan that Python's `re.sub`
  performs.
- `Encoding` models `get_encoding`. It covers the `re.match(r'.+\((.*)\)')`
  extraction, the four ordered string replacements, and the
  `Undefined`/`Hexidecimal` fallback.
- `Dispatch` holds the command rules: what the toggle and popup commands do
  for the flags of a view, when each command is enabled, and which key-binding
  contexts the plugin claims.
- `Regions` defines what the line-ending insert command computes over a list
  of line regions. It also shows that walking the regions backwards computes
  exactly that.
- `Editor` has the stateful part:
  - a `View` class with a text buffer and per-view settings, whose methods
    update them in place;
  - the class-level staging slot of the generic replace command, as a
    `ReplaceCommand` object;
  - the show-raw steps of both commands;
  - the reverse per-selection loop;
  - the pre-save and post-save hooks;
  - the toggle's switch back from raw mode;
  - the key-binding context query.

The main results:

- The marker codec round-trips in both directions. Stripping after adding is
  the identity, and adding after stripping is the identity on texts in glyph
  form.
- Stripping carriage returns equals an independent per-character reference
  filter. The result has no `\r` directly before a terminator. It differs
  from the input only in carriage returns, keeps every line feed, is
  idempotent, and its fixed points are exactly the texts with no `\r` before
  a terminator.
- Adding carriage returns equals an independent per-character reference
  that inserts a `\r` before each terminator not already preceded by one,
  so terminators that already have their `\r` are left alone. Adding leaves a
  `\r` before every terminator. It changes only carriage returns and is
  idempotent. Its fixed points are exactly the
  texts where every terminator already follows a `\r`.
- Stripping after adding equals stripping. Adding after stripping leaves
  exactly one `\r` before each terminator.
- The insert command changes only carriage returns in the buffer. In glyph
  mode it keeps a buffer in glyph form. Because of that, a save after
  line-ending edits writes the text without markers and leaves the view
  showing what it showed before.
- The replace command's slot acts only when both of its parts are set, and
  it is always empty afterwards.
- An encoding name never contains `-` or a space.

## Model

| member | source | states |
|---|---|---|
| Glyph.AddNewlineGlyph | raw_line_edit.py:22-23 | one marker is inserted per line feed and nothing else changes in length; the line-feed count is kept; the output never starts with a bare line feed |
| Glyph.StripNewlineGlyph | raw_line_edit.py:18-19 | stripping never lengthens the text and keeps every line feed |
| Glyph.StripGlyphAfterAdd | raw_line_edit.py:18-23 | stripping the marker after adding it gives back the original text, for every text |
| Glyph.AddGivesGlyphForm | raw_line_edit.py:22-23 | after adding, every line feed is directly preceded by the marker |
| Glyph.AddGlyphAfterStrip | raw_line_edit.py:18-23 | a text in glyph form is unchanged by stripping and then adding the marker |
| CarriageReturns.StripCarriageReturns | raw_line_edit.py:26-28 | the substitution `\r*T -> T` never lengthens its input |
| CarriageReturns.StripIsDrop | raw_line_edit.py:26-28 | the substitution equals the reference filter that drops exactly the carriage returns whose run reaches a terminator |
| CarriageReturns.StripLeavesNoCrBeforeTerminator | raw_line_edit.py:26-28 | after stripping, no carriage return is directly followed by a terminator |
| CarriageReturns.StripOnlyRemovesCrs | raw_line_edit.py:26-28 | with carriage returns removed, the input and the output are equal: only `\r` is deleted |
| CarriageReturns.StripFixedPoints | raw_line_edit.py:26-28 | stripping leaves a text unchanged if and only if no `\r` in it directly precedes a terminator |
| CarriageReturns.StripIdempotent | raw_line_edit.py:26-28 | stripping twice is stripping once |
| CarriageReturns.StripKeepsNewlines | raw_line_edit.py:26-28 | stripping keeps the number of line feeds |
| CarriageReturns.StripKeepsGlyphForm | raw_line_edit.py:26-28 | stripping keeps a text in glyph form, in either mode |
| CarriageReturns.AddCarriageReturns | raw_line_edit.py:31-33 | the substitution `(?<!\r)T -> \rT` never shortens its input |
| CarriageReturns.AddIsInsert | raw_line_edit.py:31-33 | the substitution equals the reference that keeps every character and puts one `\r` in front of exactly those terminators whose preceding input character is not `\r` |
| CarriageReturns.AddLeavesCrBeforeEveryTerminator | raw_line_edit.py:31-33 | every terminator in the output is directly preceded by a carriage return |
| CarriageReturns.AddFixedPoints | raw_line_edit.py:31-33 | adding leaves a text unchanged if and only if every terminator in it already follows a `\r` |
| CarriageReturns.TerminatorsAfterCrFromPositions | raw_line_edit.py:31-33 | a text in which every terminator follows a `\r` satisfies the recursive reading used by `AddFixedPoints` (the converse of `TerminatorsAfterCrAt`) |
| CarriageReturns.NoCrBeforeFromPositions | raw_line_edit.py:26-28 | a text in which no `\r` is directly followed by the pattern satisfies the recursive reading used by `StripFixedPoints` and `AddAfterStrip` (the converse of `NoCrBeforeAt`) |
| CarriageReturns.AddIdempotent | raw_line_edit.py:31-33 | adding twice is adding once |
| CarriageReturns.AddOnlyInsertsCrs | raw_line_edit.py:31-33 | with carriage returns removed, the input and the output are equal: only `\r` is inserted |
| CarriageReturns.AddKeepsNewlines | raw_line_edit.py:31-33 | adding keeps the number of line feeds |
| CarriageReturns.AddKeepsGlyphForm | raw_line_edit.py:31-33 | in glyph mode the `\r` goes before the marker, so glyph form is kept |
| CarriageReturns.StripAfterAdd | raw_line_edit.py:26-33 | stripping after adding equals stripping the original |
| CarriageReturns.AddAfterStrip | raw_line_edit.py:26-33 | adding after stripping gives every terminator a `\r` in front, and no `\r\r` before any terminator: exactly one carriage return per terminator |
| Encoding.ParenSpan | raw_line_edit.py:53-55 | the match of `.+\((.*)\)` at the start of the label: the group lies between a `(` at index 1 or later and the last `)` of the first line, with that `(` the last one before it; no match exactly when no such pair exists |
| Encoding.ReplaceRemovesChar | raw_line_edit.py:57-58 | replacing a one-character pattern leaves no occurrence of that character when the replacement does not contain it |
| Encoding.ReplaceKeepsAbsent | raw_line_edit.py:57-58 | a replacement does not introduce a character that the text and the replacement lack |
| Encoding.EncodingNameHasNoHyphenOrSpace | raw_line_edit.py:44-60 | the resolved encoding name never contains `-` or a space |
| Encoding.UnbracketedLabel | raw_line_edit.py:52-58 | a label the regular expression does not match is only put through the four replacements |
| Encoding.GetEncoding | raw_line_edit.py:44-60 | the loop over the mapping computes the encoding name: no `-`, no space, and `utf_8` for `Undefined` and `Hexidecimal` |
| Dispatch.ToggleAction | raw_line_edit.py:114-120 | the toggle disables raw mode exactly on a raw view that is not a popup; it enables it exactly on a non-raw, non-popup view with a file; otherwise it does nothing |
| Dispatch.PopupAction | raw_line_edit.py:163-166 | the popup command shows the panel exactly when the toggle would act, and never enables or disables raw mode |
| Dispatch.HandlesContext | raw_line_edit.py:222-226 | a context key is claimed exactly when it starts with `raw_line_edit` on a raw view that is not a popup |
| Dispatch.After | raw_line_edit.py:64-105 | enabling turns raw mode on in the same view; disabling leaves an ordinary view on the file (raw and popup flags off); doing nothing or showing the popup leaves the flags as they were |
| Dispatch.SomeCommandOffered | raw_line_edit.py:111-112 | for every `view_only` setting one of the two commands is enabled; both are enabled only on a raw view |
| Dispatch.PanelIsInert | raw_line_edit.py:114-120 | on a popup panel neither command acts and no context key is claimed |
| Dispatch.ToggleTwice | raw_line_edit.py:114-120 | on an ordinary view with a file, the toggle enables, the next toggle disables, and the flags return to where they were |
| Regions.RewriteFrom | raw_line_edit.py:174-179 | rewriting every region keeps the text between regions; stripping never lengthens and adding never shortens |
| Regions.RewrittenEnds | raw_line_edit.py:174 | with no region rewritten the buffer is unchanged; with all rewritten it is the command's result |
| Regions.RewriteBackwardStep | raw_line_edit.py:174-179 | once the later regions are rewritten, the earlier region still holds its original text at its original offsets, and rewriting it there gives the next state |
| Regions.RewriteLinesOnlyTouchesCrs | raw_line_edit.py:169-180 | the insert command changes nothing but carriage returns |
| Regions.RewriteLinesKeepsNewlines | raw_line_edit.py:169-180 | the insert command keeps every line feed |
| Regions.WholeLinesCutBetweenPairs | raw_line_edit.py:175 | in glyph form, whole-line regions never separate a marker from its line feed |
| Regions.RewriteLinesKeepsGlyphForm | raw_line_edit.py:169-180 | in glyph mode the insert command keeps a buffer in glyph form |
| Editor.View.Replace | raw_line_edit.py:190 | the region's text gives way to the new text |
| Editor.View.ShowRaw | raw_line_edit.py:94-109 | the view shows the file text (with markers in glyph mode, then in glyph form), remembers file and syntax, uses Unix endings, and becomes raw, scratch and read-only |
| Editor.View.RewriteRegion | raw_line_edit.py:175-179 | one turn of the reverse loop: rewriting region `i - 1` in place moves the buffer from the state with regions `i..` rewritten to the state with regions `i - 1..` rewritten |
| Editor.View.InsertLineEndings | raw_line_edit.py:169-180 | the reverse loop gives every selected line rewritten in place and the rest untouched; glyph form is kept; the view ends read-only and not scratch; no other field of the view changes |
| Editor.ReplaceCommand.constructor | raw_line_edit.py:183-185 | the slot starts empty |
| Editor.ReplaceCommand.Run | raw_line_edit.py:187-192 | the region is replaced by the text only when both are set; both are cleared in every case |
| Editor.ReplaceWhole | raw_line_edit.py:199-205 | filling the slot with the whole buffer's region and a text, then running it, sets the buffer to that text and empties the slot |
| Editor.ShowPopup | raw_line_edit.py:134-158 | the panel shows the file text through the slot and is marked raw, popup and read-only with the right syntax; the source view becomes scratch; in glyph mode the panel is in glyph form; no command acts on the panel afterwards; the panel's file name, line endings and scratch flag are not touched |
| Editor.OnPreSave | raw_line_edit.py:196-206 | on a raw non-popup view the buffer becomes the text without markers (glyph mode) and the view stays read-only; on any other view nothing changes |
| Editor.OnPostSave | raw_line_edit.py:208-220 | on a raw non-popup view the markers are put back (glyph mode), and the view becomes scratch, read-only and uses the raw syntax; on any other view nothing changes |
| Editor.Save | raw_line_edit.py:196-220 | a raw glyph view writes the text without markers and then shows that text with the markers put back, which is exactly what it showed before when it was in glyph form; any other view writes its buffer unchanged; a raw view ends read-only, scratch, with the raw syntax and an empty slot; on any other view nothing changes |
| Editor.DisableRaw | raw_line_edit.py:64-82 | the raw view becomes scratch; the file is reopened in a new ordinary view (not raw, not a popup, not scratch, not read-only) named by the remembered file name and given the remembered syntax, with the flags `Dispatch.After` gives for disabling |
| Editor.OnQueryContext | raw_line_edit.py:222-226 | a key is claimed exactly when it starts with `raw_line_edit` on a raw view that is not a popup |

## Left out

- The host editor is not modelled: windows, focus, panels (`show_panel`,
  `hide_panel`), the selection and `is_dirty`.
- In `disable_rle` (lines 64-82), the window steps are not modelled: the
  temporary view opened when the raw view is the window's last one, focus,
  and closing the raw view. `Editor.DisableRaw` models the scratch mark, the
  new view on the remembered file and its remembered syntax. The text the
  editor shows in the reopened view is a parameter.
- Reading the file is not modelled. `codecs.open` with the resolved encoding,
  and the retry with `utf-8` when that fails, are replaced by the file's
  decoded text, given as a parameter.
- The unsaved-changes dialog and the save it may trigger are not modelled.
- The two settings lookups `use_newline_glyph` and `use_raw_line_edit_theme`,
  and the `view_only` setting, become boolean parameters.
- Syntax switching (including the reopened view's syntax in `disable_rle`)
  and `set_line_endings` are recorded as fields of the view. Their effect on
  display is not modelled.
- The editor's `full_line` region arithmetic is not modelled. The insert
  command receives the line regions as input. They must be in order and must
  not overlap, so two selections on the same line are not covered.
  `Regions.WholeLines` describes such regions, and
  `Regions.WholeLinesCutBetweenPairs` shows they qualify for
  `Regions.RewriteLinesKeepsGlyphForm`.
- The host's refusal to edit a read-only view is not modelled. The model's
  `Replace` always applies.
- Encoding.ReplaceAll: it requires a non-empty pattern. Python's
  `str.replace` with an empty pattern inserts the replacement between
  characters, but `get_encoding` only ever uses the four fixed non-empty
  patterns.
- There is no per-line terminator classifier and no decoration-based
  ("phantom") display. `raw_line_edit.py` has neither: it shows the file's
  own carriage returns and, in glyph mode, marks line feeds only. The model
  follows the code.
- The file name is not refreshed after a save. `raw_line_edit.py` leaves
  `RawLineEditFilename` as it was after saving, and the model does the same.
