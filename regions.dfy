/** What the line-ending insert command computes: each selected line is
    rewritten on its own, with stripping for the "Unix" style and adding for
    any other, and the text between the lines is left as it was. Regions are
    given as absolute offsets into the buffer before the command runs. */
module Regions {
  import opened Strings
  import opened Glyph
  import opened CarriageReturns

  /** A span `[begin, end)` of a buffer. */
  datatype Region = Region(begin: nat, end: nat)

  /** The regions lie in `[from, size]`, in order and without overlap: each
      starts no earlier than the previous one ends. */
  predicate Ordered(lines: seq<Region>, from: nat, size: nat)
  {
    lines == [] ||
    (from <= lines[0].begin <= lines[0].end <= size && Ordered(lines[1..], lines[0].end, size))
  }

  /** The rewrite applied to one line. */
  function RewriteLine(line: string, style: string, glyph: bool): string
  {
    if style == "Unix" then StripCarriageReturns(line, glyph) else AddCarriageReturns(line, glyph)
  }

  /** The buffer from offset `from` on, with each region rewritten and the text
      around the regions kept. Stripping never lengthens it and adding never
      shortens it. */
  function RewriteFrom(buf: string, lines: seq<Region>, from: nat, style: string, glyph: bool): (r: string)
    requires from <= |buf| && Ordered(lines, from, |buf|)
    ensures style == "Unix" ==> |r| <= |buf| - from
    ensures style != "Unix" ==> |r| >= |buf| - from
    decreases |lines|
  {
    if lines == [] then buf[from..]
    else
      var line := lines[0];
      buf[from..line.begin] +
      RewriteLine(buf[line.begin..line.end], style, glyph) +
      RewriteFrom(buf, lines[1..], line.end, style, glyph)
  }

  /** The whole buffer after the command. */
  function RewriteLines(buf: string, lines: seq<Region>, style: string, glyph: bool): string
    requires Ordered(lines, 0, |buf|)
  {
    RewriteFrom(buf, lines, 0, style, glyph)
  }

  /** Offset where the part of the buffer still to be scanned starts once
      the regions from index `i` on have been rewritten back to front. */
  function Resume(lines: seq<Region>, i: nat): nat
    requires i <= |lines|
  {
    if i == 0 then 0 else lines[i - 1].end
  }

  /** The buffer after the regions from index `i` on have been rewritten,
      last one first, and those before index `i` not yet. */
  function RewrittenFrom(buf: string, lines: seq<Region>, i: nat, style: string, glyph: bool): string
    requires Ordered(lines, 0, |buf|) && i <= |lines|
  {
    OrderedSuffix(lines, |buf|, i);
    buf[..Resume(lines, i)] + RewriteFrom(buf, lines[i..], Resume(lines, i), style, glyph)
  }

  /** Nothing rewritten yet is the buffer itself; everything rewritten is the
      command's result. */
  lemma RewrittenEnds(buf: string, lines: seq<Region>, style: string, glyph: bool)
    requires Ordered(lines, 0, |buf|)
    ensures RewrittenFrom(buf, lines, |lines|, style, glyph) == buf
    ensures RewrittenFrom(buf, lines, 0, style, glyph) == RewriteLines(buf, lines, style, glyph)
  {
    var r := Resume(lines, |lines|);
    OrderedSuffix(lines, |buf|, |lines|);
    assert lines[|lines|..] == [];
    assert RewriteFrom(buf, [], r, style, glyph) == buf[r..];
    assert buf[..r] + buf[r..] == buf;
    assert lines[0..] == lines;
    assert buf[..0] == [];
  }

  /** Rewriting region `i - 1` in the buffer where the regions from `i` on are
      already rewritten gives the buffer where the regions from `i - 1` on are:
      the region still sits at its original offsets. */
  lemma RewriteBackwardStep(buf: string, lines: seq<Region>, i: nat, style: string, glyph: bool)
    requires Ordered(lines, 0, |buf|) && 0 < i <= |lines|
    ensures var cur := RewrittenFrom(buf, lines, i, style, glyph);
            var line := lines[i - 1];
            line.begin <= line.end <= |cur| && line.end <= |buf| &&
            cur[line.begin..line.end] == buf[line.begin..line.end] &&
            RewrittenFrom(buf, lines, i - 1, style, glyph) ==
              cur[..line.begin] + RewriteLine(cur[line.begin..line.end], style, glyph) + cur[line.end..]
  {
    RewrittenBefore(buf, lines, i, style, glyph);
    RewrittenAt(buf, lines, i, style, glyph);
    var line := lines[i - 1];
    var b, e := line.begin, line.end;
    var rest := RewriteFrom(buf, lines[i..], e, style, glyph);
    var cur := buf[..e] + rest;
    assert cur[..b] == buf[..b];
    assert cur[b..e] == buf[b..e];
    assert cur[e..] == rest;
  }

  /** Where the regions from `i` on are rewritten, the buffer up to the end
      of region `i - 1` is untouched. */
  lemma RewrittenAt(buf: string, lines: seq<Region>, i: nat, style: string, glyph: bool)
    requires Ordered(lines, 0, |buf|) && 0 < i <= |lines|
    ensures lines[i - 1].begin <= lines[i - 1].end <= |buf|
    ensures Ordered(lines[i..], lines[i - 1].end, |buf|)
    ensures RewrittenFrom(buf, lines, i, style, glyph) ==
            buf[..lines[i - 1].end] + RewriteFrom(buf, lines[i..], lines[i - 1].end, style, glyph)
  {
    OrderedSuffix(lines, |buf|, i - 1);
    assert lines[i - 1..][0] == lines[i - 1];
    OrderedSuffix(lines, |buf|, i);
  }

  /** Rewriting region `i - 1` as well extends the rewritten part. */
  lemma RewrittenBefore(buf: string, lines: seq<Region>, i: nat, style: string, glyph: bool)
    requires Ordered(lines, 0, |buf|) && 0 < i <= |lines|
    ensures lines[i - 1].begin <= lines[i - 1].end <= |buf|
    ensures Ordered(lines[i..], lines[i - 1].end, |buf|)
    ensures RewrittenFrom(buf, lines, i - 1, style, glyph) ==
            buf[..lines[i - 1].begin] +
            RewriteLine(buf[lines[i - 1].begin..lines[i - 1].end], style, glyph) +
            RewriteFrom(buf, lines[i..], lines[i - 1].end, style, glyph)
  {
    var line := lines[i - 1];
    var b, e := line.begin, line.end;
    var from := Resume(lines, i - 1);
    var tail := lines[i - 1..];
    OrderedSuffix(lines, |buf|, i - 1);
    OrderedSuffix(lines, |buf|, i);
    assert tail[0] == line && tail[1..] == lines[i..];
    var rest := RewriteFrom(buf, lines[i..], e, style, glyph);
    var x := RewriteLine(buf[b..e], style, glyph);
    var next := RewriteFrom(buf, tail, from, style, glyph);
    RewriteFromStep(buf, tail, from, style, glyph);
    assert next == buf[from..b] + x + rest;
    assert RewrittenFrom(buf, lines, i - 1, style, glyph) == buf[..from] + next;
    JoinAt(buf, from, b, x, rest);
  }

  lemma JoinAt(buf: string, from: nat, b: nat, x: string, rest: string)
    requires from <= b <= |buf|
    ensures buf[..from] + (buf[from..b] + x + rest) == buf[..b] + x + rest
  {
    assert buf[..from] + buf[from..b] == buf[..b];
  }

  /** The regions from index `i` on lie after the offset where scanning
      resumes. */
  lemma {:induction false} OrderedSuffix(lines: seq<Region>, size: nat, i: nat)
    requires Ordered(lines, 0, size) && i <= |lines|
    ensures Resume(lines, i) <= size
    ensures Ordered(lines[i..], Resume(lines, i), size)
  {
    if i == 0 {
      assert lines[0..] == lines;
    } else {
      OrderedSuffix(lines, size, i - 1);
      assert lines[i - 1..][0] == lines[i - 1];
      assert lines[i - 1..][1..] == lines[i..];
    }
  }

  lemma RewriteLineWithoutCrs(line: string, style: string, glyph: bool)
    ensures WithoutCrs(RewriteLine(line, style, glyph)) == WithoutCrs(line)
  {
    if style == "Unix" {
      StripOnlyRemovesCrs(line, glyph);
    } else {
      AddOnlyInsertsCrs(line, glyph);
    }
  }

  /** Joining three parts whose carriage-return-free forms agree pairwise
      gives texts whose carriage-return-free forms agree. */
  lemma WithoutCrsJoin(a: string, b: string, c: string, b': string, c': string)
    requires WithoutCrs(b) == WithoutCrs(b') && WithoutCrs(c) == WithoutCrs(c')
    ensures WithoutCrs(a + b + c) == WithoutCrs(a + b' + c')
  {
    WithoutCrsConcat(a + b, c);
    WithoutCrsConcat(a, b);
    WithoutCrsConcat(a + b', c');
    WithoutCrsConcat(a, b');
  }

  /** One step of the rewrite: the text before the first region, the region
      rewritten, and the rest. */
  lemma RewriteFromStep(buf: string, lines: seq<Region>, from: nat, style: string, glyph: bool)
    requires from <= |buf| && Ordered(lines, from, |buf|) && lines != []
    ensures Ordered(lines[1..], lines[0].end, |buf|)
    ensures buf[from..] == buf[from..lines[0].begin] + buf[lines[0].begin..lines[0].end] + buf[lines[0].end..]
    ensures RewriteFrom(buf, lines, from, style, glyph) ==
            buf[from..lines[0].begin] +
            RewriteLine(buf[lines[0].begin..lines[0].end], style, glyph) +
            RewriteFrom(buf, lines[1..], lines[0].end, style, glyph)
  {
  }

  lemma {:induction false} RewriteFromWithoutCrs(buf: string, lines: seq<Region>, from: nat, style: string, glyph: bool)
    requires from <= |buf| && Ordered(lines, from, |buf|)
    ensures WithoutCrs(RewriteFrom(buf, lines, from, style, glyph)) == WithoutCrs(buf[from..])
    decreases |lines|
  {
    if lines != [] {
      var line := lines[0];
      var text := buf[line.begin..line.end];
      RewriteFromStep(buf, lines, from, style, glyph);
      RewriteFromWithoutCrs(buf, lines[1..], line.end, style, glyph);
      RewriteLineWithoutCrs(text, style, glyph);
      WithoutCrsJoin(buf[from..line.begin], RewriteLine(text, style, glyph),
                     RewriteFrom(buf, lines[1..], line.end, style, glyph), text, buf[line.end..]);
    }
  }

  /** The command changes nothing but carriage returns, whichever style it
      applies and however many lines are selected. */
  lemma RewriteLinesOnlyTouchesCrs(buf: string, lines: seq<Region>, style: string, glyph: bool)
    requires Ordered(lines, 0, |buf|)
    ensures WithoutCrs(RewriteLines(buf, lines, style, glyph)) == WithoutCrs(buf)
  {
    RewriteFromWithoutCrs(buf, lines, 0, style, glyph);
    assert buf[0..] == buf;
  }

  /** The command keeps every line feed of the buffer. */
  lemma RewriteLinesKeepsNewlines(buf: string, lines: seq<Region>, style: string, glyph: bool)
    requires Ordered(lines, 0, |buf|)
    ensures Count(RewriteLines(buf, lines, style, glyph), '\n') == Count(buf, '\n')
  {
    RewriteLinesOnlyTouchesCrs(buf, lines, style, glyph);
    WithoutCrsKeepsNewlines(buf);
    WithoutCrsKeepsNewlines(RewriteLines(buf, lines, style, glyph));
  }

  /** Offset `p` of `buf` does not hold a line feed, so a cut there never
      separates a marker from the line feed after it. */
  predicate NotOnLineFeed(buf: string, p: nat)
  {
    p < |buf| ==> buf[p] != '\n'
  }

  /** No region starts or ends between a marker and its line feed. */
  predicate CutsBetweenPairs(buf: string, lines: seq<Region>)
  {
    forall k :: 0 <= k < |lines| ==>
      NotOnLineFeed(buf, lines[k].begin) && NotOnLineFeed(buf, lines[k].end)
  }

  /** Every region is made of whole lines: it starts at the start of the
      buffer or just after a line feed, and ends at the end of the buffer or
      just after a line feed (what the editor's full-line regions are). */
  predicate WholeLines(buf: string, lines: seq<Region>)
  {
    forall k :: 0 <= k < |lines| ==>
      lines[k].begin <= lines[k].end <= |buf| &&
      (lines[k].begin == 0 || buf[lines[k].begin - 1] == '\n') &&
      (lines[k].end == 0 || lines[k].end == |buf| || buf[lines[k].end - 1] == '\n')
  }

  /** In glyph form a line never starts on a line feed, so whole-line regions
      never cut a marker from its line feed. */
  lemma WholeLinesCutBetweenPairs(buf: string, lines: seq<Region>)
    requires GlyphForm(buf) && WholeLines(buf, lines)
    ensures CutsBetweenPairs(buf, lines)
  {
  }

  lemma RewriteLineKeepsGlyphForm(line: string, style: string)
    requires GlyphForm(line)
    ensures GlyphForm(RewriteLine(line, style, true))
  {
    if style == "Unix" {
      StripKeepsGlyphForm(line, true);
    } else {
      AddKeepsGlyphForm(line);
    }
  }

  lemma {:induction false} RewriteFromKeepsGlyphForm(buf: string, lines: seq<Region>, from: nat, style: string)
    requires from <= |buf| && Ordered(lines, from, |buf|)
    requires GlyphForm(buf) && NotOnLineFeed(buf, from) && CutsBetweenPairs(buf, lines)
    ensures GlyphForm(RewriteFrom(buf, lines, from, style, true))
    decreases |lines|
  {
    if lines == [] {
      GlyphFormSlice(buf, from, |buf|);
    } else {
      var line := lines[0];
      var gap := buf[from..line.begin];
      var text := buf[line.begin..line.end];
      var rewritten := RewriteLine(text, style, true);
      var rest := RewriteFrom(buf, lines[1..], line.end, style, true);
      assert RewriteFrom(buf, lines, from, style, true) == gap + rewritten + rest;
      GlyphFormSlice(buf, from, line.begin);
      GlyphFormSlice(buf, line.begin, line.end);
      RewriteLineKeepsGlyphForm(text, style);
        assert CutsBetweenPairs(buf, lines[1..]) by {
        forall k | 0 <= k < |lines| - 1
          ensures NotOnLineFeed(buf, lines[1..][k].begin) && NotOnLineFeed(buf, lines[1..][k].end)
        {
          assert lines[1..][k] == lines[k + 1];
        }
      }
      RewriteFromKeepsGlyphForm(buf, lines[1..], line.end, style);
      GlyphFormConcat(gap, rewritten);
      GlyphFormConcat(gap + rewritten, rest);
    }
  }

  /** In glyph mode the command keeps a buffer in glyph form as long as no
      region cuts a marker from its line feed, so the save hooks still give
      the file back its own text. */
  lemma RewriteLinesKeepsGlyphForm(buf: string, lines: seq<Region>, style: string)
    requires Ordered(lines, 0, |buf|) && GlyphForm(buf) && CutsBetweenPairs(buf, lines)
    ensures GlyphForm(RewriteLines(buf, lines, style, true))
  {
    RewriteFromKeepsGlyphForm(buf, lines, 0, style);
  }
}
