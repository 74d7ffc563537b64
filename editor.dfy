/** The plugin's commands and event hooks acting on editor views. A view is an
    object whose text buffer and per-view settings the commands update in
    place; the class-level staging slot of the generic replace command is an
    object of its own that callers fill and the command empties. */
module Editor {
  import opened Wrappers
  import opened Strings
  import opened Glyph
  import opened CarriageReturns
  import opened Regions
  import opened Dispatch

  /** The syntax definition the plugin switches raw views to. */
  const ThemeSyntax: string := "Packages/RawLineEdit/RawLineEdit.hidden-tmLanguage"

  /** An editor view: its text, its file, the flags the editor keeps for it,
      and the settings the plugin stores on it. */
  class View {
    var buffer: string
    var fileName: Option<string>
    var syntax: string
    var lineEndings: string
    var scratch: bool
    var readOnly: bool
    // per-view settings written by the plugin
    var rawLineEdit: bool           // "RawLineEdit"
    var popup: bool                 // "RawLineEditPopup"
    var glyph: bool                 // "RawLineEditGlyph"
    var savedSyntax: string         // "RawLineEditSyntax"
    var savedFileName: Option<string> // "RawLineEditFilename"

    /** An ordinary view on `text`, not in raw mode. */
    constructor (text: string, fileName: Option<string>, syntax: string)
      ensures buffer == text && this.fileName == fileName && this.syntax == syntax
      ensures !rawLineEdit && !popup && !glyph && !scratch && !readOnly
      ensures savedFileName.None?
    {
      buffer := text;
      this.fileName := fileName;
      this.syntax := syntax;
      lineEndings := "Unix";
      scratch := false;
      readOnly := false;
      rawLineEdit := false;
      popup := false;
      glyph := false;
      savedSyntax := syntax;
      savedFileName := None;
    }

    /** The flags the command rules look at. */
    function Flags(): Flags
      reads this
    {
      Dispatch.Flags(fileName.Some?, rawLineEdit, popup)
    }

    /** The editor's replace: the region's text gives way to `text`. */
    method Replace(r: Region, text: string)
      requires r.begin <= r.end <= |buffer|
      modifies this`buffer
      ensures buffer == old(buffer)[..r.begin] + text + old(buffer)[r.end..]
    {
      buffer := buffer[..r.begin] + text + buffer[r.end..];
    }

    /** The toggle command's `show_rle`: the view's whole text becomes the
        file's text as read from disk (`fileText`), with the newline marker
        added when `useGlyph` is set; the view is switched to raw mode,
        remembers its file and syntax, and becomes a read-only scratch view. */
    method ShowRaw(fileText: string, name: string, useGlyph: bool, useTheme: bool)
      modifies this
      ensures buffer == if useGlyph then AddNewlineGlyph(fileText) else fileText
      ensures useGlyph ==> GlyphForm(buffer)
      ensures rawLineEdit && glyph == useGlyph && popup == old(popup)
      ensures savedSyntax == old(syntax) && savedFileName == Some(name)
      ensures syntax == if useTheme then ThemeSyntax else old(syntax)
      ensures lineEndings == "Unix" && scratch && readOnly
      ensures fileName == old(fileName)
    {
      var shown := if useGlyph then AddNewlineGlyph(fileText) else fileText;
      if useGlyph {
        AddGivesGlyphForm(fileText);
      }
      Replace(Region(0, |buffer|), shown);
      assert buffer == shown;
      lineEndings := "Unix";
      glyph := useGlyph;
      rawLineEdit := true;
      savedSyntax := syntax;
      savedFileName := Some(name);
      if useTheme {
        syntax := ThemeSyntax;
      }
      scratch := true;
      readOnly := true;
    }

    /** One turn of the insert command's loop: region `i - 1` is rewritten in
        a buffer where the regions after it already are. */
    method RewriteRegion(ghost original: string, lines: seq<Region>, i: nat, style: string)
      requires Ordered(lines, 0, |original|) && 0 < i <= |lines|
      requires buffer == RewrittenFrom(original, lines, i, style, glyph)
      modifies this`buffer
      ensures buffer == RewrittenFrom(original, lines, i - 1, style, glyph)
    {
      RewriteBackwardStep(original, lines, i, style, glyph);
      var line := lines[i - 1];
      Replace(line, RewriteLine(buffer[line.begin..line.end], style, glyph));
    }

    /** The line-ending insert command: for each selected line, last one
        first, the line's text is rewritten with stripping ("Unix") or adding
        (any other style). Going backwards keeps the offsets of the lines not
        yet rewritten valid, so the result is every line rewritten in place
        and the text between them untouched. */
    method InsertLineEndings(lines: seq<Region>, style: string)
      requires Ordered(lines, 0, |buffer|)
      modifies this`buffer, this`scratch, this`readOnly
      ensures buffer == RewriteLines(old(buffer), lines, style, glyph)
      ensures glyph && GlyphForm(old(buffer)) && CutsBetweenPairs(old(buffer), lines) ==> GlyphForm(buffer)
      ensures !scratch && readOnly
      ensures glyph == old(glyph) && rawLineEdit == old(rawLineEdit) && popup == old(popup)
      ensures fileName == old(fileName) && syntax == old(syntax)
    {
      scratch := false;
      readOnly := false;
      ghost var original := buffer;
      RewrittenEnds(original, lines, style, glyph);
      var i := |lines|;
      while i > 0
        modifies this`buffer
        invariant 0 <= i <= |lines|
        invariant buffer == RewrittenFrom(original, lines, i, style, glyph)
      {
        RewriteRegion(original, lines, i, style);
        i := i - 1;
      }
      if glyph && GlyphForm(original) && CutsBetweenPairs(original, lines) {
        RewriteLinesKeepsGlyphForm(original, lines, style);
      }
      readOnly := true;
    }
  }

  /** The generic replace command's class-level slot: a pending text and the
      region it is to replace. */
  class ReplaceCommand {
    var text: Option<string>
    var region: Option<Region>

    constructor ()
      ensures text.None? && region.None?
    {
      text := None;
      region := None;
    }

    /** Applies the pending replacement to `view` when both parts are set,
        and empties the slot in every case, so that a second run does
        nothing. */
    method Run(view: View)
      requires text.Some? && region.Some? ==> region.value.begin <= region.value.end <= |view.buffer|
      modifies this, view`buffer
      ensures text.None? && region.None?
      ensures view.buffer ==
        if old(text).Some? && old(region).Some?
        then old(view.buffer)[..old(region).value.begin] + old(text).value + old(view.buffer)[old(region).value.end..]
        else old(view.buffer)
    {
      if text.Some? && region.Some? {
        view.Replace(region.value, text.value);
      }
      text := None;
      region := None;
    }
  }

  /** Filling the slot with a whole-buffer replacement and running it sets
      the buffer to exactly that text. */
  method ReplaceWhole(slot: ReplaceCommand, view: View, text: string)
    modifies slot, view`buffer
    ensures view.buffer == text
    ensures slot.text.None? && slot.region.None?
  {
    slot.region := Some(Region(0, |view.buffer|));
    slot.text := Some(text);
    slot.Run(view);
  }

  /** The popup command's `show_rle`: the output panel's text becomes the
      file's text (`fileText`), with the newline marker when `useGlyph` is set,
      through the staging slot; the panel is marked as a raw popup and made
      read-only, and the requesting view becomes a scratch view. */
  method ShowPopup(slot: ReplaceCommand, panel: View, source: View,
                   fileText: string, name: string, useGlyph: bool, useTheme: bool)
    requires panel != source
    modifies slot, panel`buffer, panel`readOnly, panel`syntax, panel`savedSyntax,
             panel`glyph, panel`rawLineEdit, panel`savedFileName, panel`popup, source`scratch
    ensures panel.buffer == if useGlyph then AddNewlineGlyph(fileText) else fileText
    ensures useGlyph ==> GlyphForm(panel.buffer)
    ensures slot.text.None? && slot.region.None?
    ensures panel.rawLineEdit && panel.popup && panel.glyph == useGlyph && panel.readOnly
    ensures panel.syntax == if useTheme then ThemeSyntax else source.syntax
    ensures panel.savedSyntax == source.syntax && panel.savedFileName == Some(name)
    ensures source.scratch
    ensures ToggleAction(panel.Flags()) == DoNothing && PopupAction(panel.Flags()) == DoNothing
  {
    panel.readOnly := false;
    if useGlyph {
      AddGivesGlyphForm(fileText);
    }
    ReplaceWhole(slot, panel, if useGlyph then AddNewlineGlyph(fileText) else fileText);
    panel.syntax := if useTheme then ThemeSyntax else source.syntax;
    panel.savedSyntax := source.syntax;
    panel.glyph := useGlyph;
    panel.rawLineEdit := true;
    panel.savedFileName := Some(name);
    panel.popup := true;
    source.scratch := true;
    panel.readOnly := true;
  }

  /** Whether the save hooks act on a view: raw mode, not a popup panel. */
  predicate SavesRaw(view: View)
    reads view
  {
    view.rawLineEdit && !view.popup
  }

  /** Before a raw view is written, its text is replaced by the real file
      text: the newline marker is stripped in glyph mode. */
  method OnPreSave(slot: ReplaceCommand, view: View)
    modifies slot, view`buffer, view`readOnly
    ensures SavesRaw(view) ==>
      view.buffer == (if view.glyph then StripNewlineGlyph(old(view.buffer)) else old(view.buffer)) &&
      view.readOnly && slot.text.None? && slot.region.None?
    ensures !SavesRaw(view) ==>
      view.buffer == old(view.buffer) && view.readOnly == old(view.readOnly) &&
      slot.text == old(slot.text) && slot.region == old(slot.region)
  {
    if view.rawLineEdit && !view.popup {
      var text := if view.glyph then StripNewlineGlyph(view.buffer) else view.buffer;
      view.readOnly := false;
      ReplaceWhole(slot, view, text);
      view.readOnly := true;
    }
  }

  /** After a raw view is written, the marker is put back in glyph mode and
      the view returns to a read-only scratch view with the raw syntax. */
  method OnPostSave(slot: ReplaceCommand, view: View)
    modifies slot, view`buffer, view`readOnly, view`scratch, view`syntax
    ensures SavesRaw(view) ==>
      view.buffer == (if view.glyph then AddNewlineGlyph(old(view.buffer)) else old(view.buffer)) &&
      view.readOnly && view.scratch && view.syntax == ThemeSyntax &&
      slot.text.None? && slot.region.None?
    ensures !SavesRaw(view) ==>
      view.buffer == old(view.buffer) && view.readOnly == old(view.readOnly) &&
      view.scratch == old(view.scratch) && view.syntax == old(view.syntax) &&
      slot.text == old(slot.text) && slot.region == old(slot.region)
  {
    if view.rawLineEdit && !view.popup {
      var text := if view.glyph then AddNewlineGlyph(view.buffer) else view.buffer;
      view.readOnly := false;
      ReplaceWhole(slot, view, text);
      view.scratch := true;
      view.readOnly := true;
      view.syntax := ThemeSyntax;
    }
  }

  /** A save as the editor performs it: the pre-save hook, the write (whose
      bytes are returned), the post-save hook. For a raw view the file gets
      the text without markers, and a view in glyph form is left showing
      exactly what it showed before. */
  method Save(slot: ReplaceCommand, view: View) returns (written: string)
    modifies slot, view`buffer, view`readOnly, view`scratch, view`syntax
    ensures SavesRaw(view) && view.glyph ==> written == StripNewlineGlyph(old(view.buffer))
    ensures !(SavesRaw(view) && view.glyph) ==> written == old(view.buffer)
    ensures SavesRaw(view) && view.glyph ==> view.buffer == AddNewlineGlyph(StripNewlineGlyph(old(view.buffer)))
    ensures !view.glyph || !SavesRaw(view) || GlyphForm(old(view.buffer)) ==> view.buffer == old(view.buffer)
    ensures SavesRaw(view) ==>
      view.readOnly && view.scratch && view.syntax == ThemeSyntax && slot.text.None? && slot.region.None?
    ensures !SavesRaw(view) ==>
      view.readOnly == old(view.readOnly) && view.scratch == old(view.scratch) &&
      view.syntax == old(view.syntax) && slot.text == old(slot.text) && slot.region == old(slot.region)
  {
    OnPreSave(slot, view);
    written := view.buffer;
    OnPostSave(slot, view);
    if SavesRaw(view) && view.glyph && GlyphForm(old(view.buffer)) {
      AddGlyphAfterStrip(old(view.buffer));
    }
  }

  /** The toggle command's `disable_rle`: the raw view is marked scratch (so
      closing it does not ask to save) and closed, and its file is opened again
      in a new, ordinary view that gets the syntax the raw view remembered.
      `shownText` is the text the editor shows for the reopened file. */
  method DisableRaw(view: View, shownText: string) returns (reopened: View)
    modifies view`scratch
    ensures view.scratch
    ensures fresh(reopened)
    ensures reopened.buffer == shownText
    ensures reopened.fileName == view.savedFileName && reopened.syntax == view.savedSyntax
    ensures !reopened.rawLineEdit && !reopened.popup && !reopened.glyph
    ensures !reopened.scratch && !reopened.readOnly
    ensures view.savedFileName.Some? ==> reopened.Flags() == After(view.Flags(), Disable)
  {
    view.scratch := true;
    reopened := new View(shownText, view.savedFileName, view.savedSyntax);
  }

  /** The key-binding context query. */
  function OnQueryContext(view: View, key: string): (handled: bool)
    reads view
    ensures handled <==> view.rawLineEdit && !view.popup && StartsWith(key, "raw_line_edit")
  {
    HandlesContext(view.Flags(), key)
  }
}
