/** The visible newline marker and the two buffer-wide rewrites that put it in
    front of every line feed and take it away again. Both are single regular
    expression substitutions in the plugin; here they are left-to-right scans
    that make the same non-overlapping matches. */
module Glyph {
  import opened Strings

  /** The marker shown in front of each line feed in glyph mode. */
  const NewLine: char := '¬'

  /** Every line feed of `s` is directly preceded by the marker: the shape of a
      buffer shown in glyph mode. */
  predicate GlyphForm(s: string)
  {
    forall i :: 0 <= i < |s| && s[i] == '\n' ==> 0 < i && s[i - 1] == NewLine
  }

  /** Puts the marker before every line feed. Exactly one marker is inserted
      per line feed and nothing else is added. */
  function AddNewlineGlyph(t: string): (r: string)
    ensures |r| == |t| + Count(t, '\n')
    ensures Count(r, '\n') == Count(t, '\n')
    ensures Count(r, NewLine) == Count(t, NewLine) + Count(t, '\n')
    ensures r != [] ==> r[0] != '\n'
  {
    if t == [] then []
    else if t[0] == '\n' then [NewLine, '\n'] + AddNewlineGlyph(t[1..])
    else [t[0]] + AddNewlineGlyph(t[1..])
  }

  /** Replaces every marker-plus-line-feed pair, scanning left to right, by a
      bare line feed. Line feeds are never removed. */
  function StripNewlineGlyph(t: string): (r: string)
    ensures |r| <= |t|
    ensures Count(r, '\n') == Count(t, '\n')
  {
    if |t| >= 2 && t[0] == NewLine && t[1] == '\n' then ['\n'] + StripNewlineGlyph(t[2..])
    else if t == [] then []
    else [t[0]] + StripNewlineGlyph(t[1..])
  }

  /** The pre-save hook strips what the view showed and the post-save hook
      adds it back: stripping undoes adding for every text. */
  lemma {:induction false} StripGlyphAfterAdd(t: string)
    ensures StripNewlineGlyph(AddNewlineGlyph(t)) == t
  {
    if t == [] {
    } else if t[0] == '\n' {
      var rest := AddNewlineGlyph(t[1..]);
      assert AddNewlineGlyph(t) == [NewLine, '\n'] + rest;
      assert ([NewLine, '\n'] + rest)[2..] == rest;
      StripGlyphAfterAdd(t[1..]);
    } else {
      var rest := AddNewlineGlyph(t[1..]);
      assert AddNewlineGlyph(t) == [t[0]] + rest;
      assert ([t[0]] + rest)[1..] == rest;
      StripGlyphAfterAdd(t[1..]);
    }
  }

  /** What adding produces is in glyph form. */
  lemma {:induction false} AddGivesGlyphForm(t: string)
    ensures GlyphForm(AddNewlineGlyph(t))
  {
    if t != [] {
      var rest := AddNewlineGlyph(t[1..]);
      AddGivesGlyphForm(t[1..]);
      var head := if t[0] == '\n' then [NewLine, '\n'] else [t[0]];
      var r := head + rest;
      assert AddNewlineGlyph(t) == r;
      forall i | 0 <= i < |r| && r[i] == '\n'
        ensures 0 < i && r[i - 1] == NewLine
      {
        if i >= |head| {
          assert r[i] == rest[i - |head|];
          assert i - |head| > 0;
          assert r[i - 1] == rest[i - |head| - 1];
        }
      }
    }
  }

  /** A text in glyph form survives the save round trip: stripping then adding
      gives it back unchanged. */
  lemma {:induction false} AddGlyphAfterStrip(s: string)
    requires GlyphForm(s)
    ensures AddNewlineGlyph(StripNewlineGlyph(s)) == s
  {
    if s == [] {
    } else if |s| >= 2 && s[0] == NewLine && s[1] == '\n' {
      var tail := s[2..];
      assert GlyphForm(tail) by {
        forall i | 0 <= i < |tail| && tail[i] == '\n'
          ensures 0 < i && tail[i - 1] == NewLine
        {
          assert s[i + 2] == '\n';
        }
      }
      AddGlyphAfterStrip(tail);
      assert StripNewlineGlyph(s) == ['\n'] + StripNewlineGlyph(tail);
      assert (['\n'] + StripNewlineGlyph(tail))[1..] == StripNewlineGlyph(tail);
      assert s == [NewLine, '\n'] + tail;
    } else {
      assert s[0] != '\n';
      var tail := s[1..];
      assert GlyphForm(tail) by {
        forall i | 0 <= i < |tail| && tail[i] == '\n'
          ensures 0 < i && tail[i - 1] == NewLine
        {
          assert s[i + 1] == '\n';
        }
      }
      AddGlyphAfterStrip(tail);
      assert StripNewlineGlyph(s) == [s[0]] + StripNewlineGlyph(tail);
      assert ([s[0]] + StripNewlineGlyph(tail))[1..] == StripNewlineGlyph(tail);
      assert s == [s[0]] + tail;
    }
  }

  /** Recursive reading of glyph form, scanning left to right: `afterMarker`
      tells whether the character just before `s` is the marker. */
  predicate MarkedFrom(s: string, afterMarker: bool)
  {
    s == [] || ((s[0] == '\n' ==> afterMarker) && MarkedFrom(s[1..], s[0] == NewLine))
  }

  lemma {:induction false} MarkedFromAt(s: string, afterMarker: bool)
    ensures MarkedFrom(s, afterMarker) <==>
      (s != [] && s[0] == '\n' ==> afterMarker) &&
      (forall i :: 1 <= i < |s| && s[i] == '\n' ==> s[i - 1] == NewLine)
  {
    if s != [] {
      MarkedFromAt(s[1..], s[0] == NewLine);
      var t := s[1..];
      assert forall i :: 1 <= i < |s| ==> s[i] == t[i - 1];
      assert (forall i :: 1 <= i < |s| && s[i] == '\n' ==> s[i - 1] == NewLine) <==>
             (t != [] && t[0] == '\n' ==> s[0] == NewLine) &&
             (forall i :: 1 <= i < |t| && t[i] == '\n' ==> t[i - 1] == NewLine);
    }
  }

  /** Glyph form is the scan started with no marker before the text. */
  lemma GlyphFormIsMarked(s: string)
    ensures GlyphForm(s) <==> MarkedFrom(s, false)
  {
    MarkedFromAt(s, false);
  }

  /** A weaker start never hurts. */
  lemma {:induction false} MarkedFromWeaken(s: string)
    requires MarkedFrom(s, false)
    ensures MarkedFrom(s, true)
  {
  }

  /** Joining two texts in glyph form gives a text in glyph form. */
  lemma GlyphFormConcat(a: string, b: string)
    requires GlyphForm(a) && GlyphForm(b)
    ensures GlyphForm(a + b)
  {
    var s := a + b;
    forall i | 0 <= i < |s| && s[i] == '\n'
      ensures 0 < i && s[i - 1] == NewLine
    {
      if i >= |a| {
        assert b[i - |a|] == '\n';
        if i > |a| {
          assert s[i - 1] == b[i - |a| - 1];
        }
      }
    }
  }

  /** A slice of a text in glyph form that does not start on a line feed is
      in glyph form. */
  lemma GlyphFormSlice(s: string, i: nat, j: nat)
    requires GlyphForm(s) && i <= j <= |s|
    requires i < j ==> s[i] != '\n'
    ensures GlyphForm(s[i..j])
  {
    var t := s[i..j];
    forall k | 0 <= k < |t| && t[k] == '\n'
      ensures 0 < k && t[k - 1] == NewLine
    {
      assert s[i + k] == '\n';
    }
  }
}
