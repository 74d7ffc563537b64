/** The rules that decide, from a view's raw-edit flags, what the toggle
    command, the popup command and the key-binding context query do. The
    flags are the per-view settings `RawLineEdit` and `RawLineEditPopup` and
    whether the view has a file name; `viewOnly` is the package setting
    `view_only`. */
module Dispatch {
  import opened Strings

  datatype Flags = Flags(hasFileName: bool, rawLineEdit: bool, popup: bool)

  datatype Action = DoNothing | Enable | Disable | ShowPopup

  /** The toggle command is offered unless the package is in view-only mode,
      and always on a view already in raw mode. */
  predicate ToggleIsEnabled(viewOnly: bool, f: Flags)
  {
    !viewOnly || f.rawLineEdit
  }

  /** What the toggle command does. It ignores popup panels and views that
      have neither a file nor raw mode; otherwise it switches raw mode off
      when it is on and on when it is off. */
  function ToggleAction(f: Flags): (a: Action)
    ensures a == Disable <==> f.rawLineEdit && !f.popup
    ensures a == Enable <==> f.hasFileName && !f.rawLineEdit && !f.popup
    ensures a == DoNothing <==> f.popup || (!f.hasFileName && !f.rawLineEdit)
  {
    if (f.hasFileName || f.rawLineEdit) && !f.popup then
      if f.rawLineEdit then Disable else Enable
    else DoNothing
  }

  /** The popup command is offered only in view-only mode. */
  predicate PopupIsEnabled(viewOnly: bool)
  {
    viewOnly
  }

  /** What the popup command does: it shows the panel under the same
      condition the toggle command acts under, and never switches a view. */
  function PopupAction(f: Flags): (a: Action)
    ensures a == ShowPopup <==> ToggleAction(f) != DoNothing
    ensures a != Enable && a != Disable
  {
    if (f.hasFileName || f.rawLineEdit) && !f.popup then ShowPopup else DoNothing
  }

  /** The key-binding context: a key named `raw_line_edit...` is claimed by a
      view in raw mode that is not a popup panel, which is exactly a view on
      which the toggle command would switch raw mode off. */
  function HandlesContext(f: Flags, key: string): (r: bool)
    ensures r <==> StartsWith(key, "raw_line_edit") && ToggleAction(f) == Disable
  {
    f.rawLineEdit && StartsWith(key, "raw_line_edit") && !f.popup
  }

  /** The flags of the view the user ends up in after an action: enabling
      turns raw mode on in the same view; disabling closes the raw view and
      reopens its file in a fresh, ordinary view; the popup leaves the
      requesting view's flags alone. */
  function After(f: Flags, a: Action): (g: Flags)
    ensures a == DoNothing || a == ShowPopup ==> g == f
    ensures a == Enable ==> g.rawLineEdit && g.hasFileName == f.hasFileName && g.popup == f.popup
    ensures a == Disable ==> g.hasFileName && !g.rawLineEdit && !g.popup
  {
    match a
    case Enable => f.(rawLineEdit := true)
    case Disable => Flags(true, false, false)
    case _ => f
  }

  /** In every setting at least one of the two commands is offered, and both
      are offered only for a view already in raw mode. */
  lemma SomeCommandOffered(viewOnly: bool, f: Flags)
    ensures ToggleIsEnabled(viewOnly, f) || PopupIsEnabled(viewOnly)
    ensures ToggleIsEnabled(viewOnly, f) && PopupIsEnabled(viewOnly) ==> f.rawLineEdit
  {
  }

  /** A popup panel ignores both commands and claims no key. */
  lemma PanelIsInert(f: Flags, key: string)
    requires f.popup
    ensures ToggleAction(f) == DoNothing && PopupAction(f) == DoNothing
    ensures !HandlesContext(f, key)
  {
  }

  /** Toggling an ordinary file view twice enables and then disables raw
      mode, and leaves a view with the same flags. */
  lemma ToggleTwice(f: Flags)
    requires f.hasFileName && !f.rawLineEdit && !f.popup
    ensures ToggleAction(f) == Enable
    ensures ToggleAction(After(f, Enable)) == Disable
    ensures After(After(f, Enable), Disable) == f
  {
  }
}
