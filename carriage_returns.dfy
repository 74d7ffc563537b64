/** The two per-line terminator rewrites. A terminator is "¬\n" when the view
    shows the newline marker and "\n" otherwise. Stripping turns every run of
    carriage returns that ends at a terminator into nothing (`\r*T` -> `T`);
    adding puts one carriage return before every terminator that does not
    already follow one (`(?<!\r)T` -> `\rT`). Both are modelled as the
    left-to-right scan a regular expression substitution performs. */
module CarriageReturns {
  import opened Strings
  import opened Glyph

  /** The terminator the rewrites look for. */
  function Terminator(glyph: bool): string
  {
    if glyph then [NewLine, '\n'] else ['\n']
  }

  /** Length of the run of carriage returns at the head of `s`. */
  function CrRun(s: string): (n: nat)
    ensures n <= |s|
  {
    if s != [] && s[0] == '\r' then 1 + CrRun(s[1..]) else 0
  }

  /** Everything before `CrRun(s)` is a carriage return, and what follows
      is not. */
  lemma {:induction false} CrRunIsRun(s: string)
    ensures forall k :: 0 <= k < CrRun(s) ==> s[k] == '\r'
    ensures CrRun(s) < |s| ==> s[CrRun(s)] != '\r'
    decreases |s|
  {
    if s != [] && s[0] == '\r' {
      assert s[1..][CrRun(s[1..])..] == s[CrRun(s)..];
      CrRunIsRun(s[1..]);
      assert forall k :: 1 <= k < CrRun(s) ==> s[k] == s[1..][k - 1];
    }
  }

  /** The pattern `\r*T` matches at the head of `s`: the (possibly empty) run
      of carriage returns there is followed by a terminator. */
  predicate RunReachesTerminator(s: string, glyph: bool)
  {
    StartsWith(s[CrRun(s)..], Terminator(glyph))
  }

  /** `s` with every carriage return removed. */
  function WithoutCrs(s: string): string
  {
    if s == [] then [] else (if s[0] == '\r' then [] else [s[0]]) + WithoutCrs(s[1..])
  }

  /** Removing carriage returns distributes over concatenation. */
  lemma {:induction false} WithoutCrsConcat(a: string, b: string)
    ensures WithoutCrs(a + b) == WithoutCrs(a) + WithoutCrs(b)
  {
    if a != [] {
      var head := if a[0] == '\r' then [] else [a[0]];
      assert (a + b)[0] == a[0];
      assert (a + b)[1..] == a[1..] + b;
      WithoutCrsConcat(a[1..], b);
      calc {
        WithoutCrs(a + b);
        head + WithoutCrs(a[1..] + b);
        head + (WithoutCrs(a[1..]) + WithoutCrs(b));
        (head + WithoutCrs(a[1..])) + WithoutCrs(b);
        WithoutCrs(a) + WithoutCrs(b);
      }
    } else {
      assert a + b == b;
    }
  }

  /** No carriage return in `s` is directly followed by `p`. */
  predicate NoCrBefore(s: string, p: string)
  {
    s == [] || ((s[0] == '\r' ==> !StartsWith(s[1..], p)) && NoCrBefore(s[1..], p))
  }

  /** Every terminator in `s` is directly preceded by a carriage return;
      `afterCr` tells whether the character just before `s` is one. */
  predicate TerminatorsAfterCr(s: string, glyph: bool, afterCr: bool)
  {
    s == [] ||
    ((StartsWith(s, Terminator(glyph)) ==> afterCr) &&
     TerminatorsAfterCr(s[1..], glyph, s[0] == '\r'))
  }

  // ---------------------------------------------------------------------
  // Stripping

  /** `re.sub("\r*" + T, T, text)`: at each position the pattern is tried;
      on a match the run and the terminator are replaced by the terminator and
      the scan resumes after it, otherwise one character is copied. Never
      longer than its input. */
  function StripCarriageReturns(t: string, glyph: bool): (r: string)
    ensures |r| <= |t|
    decreases |t|
  {
    if t == [] then []
    else if RunReachesTerminator(t, glyph) then
      Terminator(glyph) + StripCarriageReturns(t[CrRun(t) + |Terminator(glyph)|..], glyph)
    else [t[0]] + StripCarriageReturns(t[1..], glyph)
  }

  /** Reference reading of stripping, one character at a time: a carriage
      return is dropped exactly when the run it belongs to reaches a
      terminator; every other character is kept. */
  function DropCrsBeforeTerminators(t: string, glyph: bool): string
  {
    if t == [] then []
    else
      (if t[0] == '\r' && RunReachesTerminator(t, glyph) then [] else [t[0]]) +
      DropCrsBeforeTerminators(t[1..], glyph)
  }

  lemma RunReachesTail(t: string, glyph: bool)
    requires t != [] && t[0] == '\r'
    ensures CrRun(t[1..]) == CrRun(t) - 1
    ensures RunReachesTerminator(t, glyph) == RunReachesTerminator(t[1..], glyph)
  {
    assert t[CrRun(t)..] == t[1..][CrRun(t[1..])..];
  }

  /** A run that reaches a terminator is dropped as a whole. */
  lemma {:induction false} DropWholeRun(t: string, glyph: bool)
    requires RunReachesTerminator(t, glyph)
    ensures DropCrsBeforeTerminators(t, glyph) == DropCrsBeforeTerminators(t[CrRun(t)..], glyph)
    decreases |t|
  {
    if CrRun(t) > 0 {
      RunReachesTail(t, glyph);
      DropWholeRun(t[1..], glyph);
      assert t[1..][CrRun(t[1..])..] == t[CrRun(t)..];
    }
  }

  /** A character other than a carriage return is always kept. */
  lemma DropKeepsHead(t: string, glyph: bool)
    requires t != [] && t[0] != '\r'
    ensures DropCrsBeforeTerminators(t, glyph) == [t[0]] + DropCrsBeforeTerminators(t[1..], glyph)
  {
  }

  /** A terminator at the head is kept whole. */
  lemma DropTerminator(t: string, glyph: bool)
    requires StartsWith(t, Terminator(glyph))
    ensures DropCrsBeforeTerminators(t, glyph) ==
            Terminator(glyph) + DropCrsBeforeTerminators(t[|Terminator(glyph)|..], glyph)
  {
    StartsWithTerminator(t, glyph);
    if glyph {
      DropPair(t);
    } else {
      DropKeepsHead(t, glyph);
    }
  }

  lemma DropPair(t: string)
    requires |t| >= 2 && t[0] == NewLine && t[1] == '\n'
    ensures DropCrsBeforeTerminators(t, true) == [NewLine, '\n'] + DropCrsBeforeTerminators(t[2..], true)
  {
    var rest := DropCrsBeforeTerminators(t[2..], true);
    assert t[1..][1..] == t[2..];
    DropKeepsHead(t[1..], true);
    DropKeepsHead(t, true);
  }

  /** The regular expression scan and the per-character reading agree. */
  lemma {:induction false} StripIsDrop(t: string, glyph: bool)
    ensures StripCarriageReturns(t, glyph) == DropCrsBeforeTerminators(t, glyph)
    decreases |t|
  {
    if t == [] {
    } else if RunReachesTerminator(t, glyph) {
      StripMatch(t, glyph);
      DropMatch(t, glyph);
      StripIsDrop(t[CrRun(t) + |Terminator(glyph)|..], glyph);
    } else {
      StripNoMatch(t, glyph);
      DropNoMatch(t, glyph);
      StripIsDrop(t[1..], glyph);
    }
  }

  lemma StripMatch(t: string, glyph: bool)
    requires t != [] && RunReachesTerminator(t, glyph)
    ensures CrRun(t) + |Terminator(glyph)| <= |t|
    ensures StripCarriageReturns(t, glyph) ==
            Terminator(glyph) + StripCarriageReturns(t[CrRun(t) + |Terminator(glyph)|..], glyph)
  {
  }

  lemma StripNoMatch(t: string, glyph: bool)
    requires t != [] && !RunReachesTerminator(t, glyph)
    ensures StripCarriageReturns(t, glyph) == [t[0]] + StripCarriageReturns(t[1..], glyph)
  {
  }

  /** Where the pattern matches, the reading drops the run and keeps the
      terminator. */
  lemma DropMatch(t: string, glyph: bool)
    requires RunReachesTerminator(t, glyph)
    ensures CrRun(t) + |Terminator(glyph)| <= |t|
    ensures DropCrsBeforeTerminators(t, glyph) ==
            Terminator(glyph) + DropCrsBeforeTerminators(t[CrRun(t) + |Terminator(glyph)|..], glyph)
  {
    var k := CrRun(t);
    var n := |Terminator(glyph)|;
    var u := t[k..];
    assert DropCrsBeforeTerminators(t, glyph) == DropCrsBeforeTerminators(u, glyph) by {
      DropWholeRun(t, glyph);
    }
    assert DropCrsBeforeTerminators(u, glyph) == Terminator(glyph) + DropCrsBeforeTerminators(u[n..], glyph) by {
      DropTerminator(u, glyph);
    }
    assert u[n..] == t[k + n..];
  }

  /** Where the pattern does not match, the reading keeps the first
      character. */
  lemma DropNoMatch(t: string, glyph: bool)
    requires t != [] && !RunReachesTerminator(t, glyph)
    ensures DropCrsBeforeTerminators(t, glyph) == [t[0]] + DropCrsBeforeTerminators(t[1..], glyph)
  {
  }

  /** The first character the reading keeps. */
  lemma FirstOfDrop(v: string, glyph: bool)
    requires v != []
    ensures DropCrsBeforeTerminators(v, glyph) != []
    ensures DropCrsBeforeTerminators(v, glyph)[0] ==
            if v[0] == '\r' && RunReachesTerminator(v, glyph) then Terminator(glyph)[0] else v[0]
  {
    if v[0] == '\r' && RunReachesTerminator(v, glyph) {
      DropWholeRun(v, glyph);
      DropTerminator(v[CrRun(v)..], glyph);
    }
  }

  /** When the head of `u` does not match `\r*T`, what is kept of `u` does not
      start with a terminator. */
  lemma DropHeadNotTerminator(u: string, glyph: bool)
    requires !RunReachesTerminator(u, glyph)
    ensures !StartsWith(DropCrsBeforeTerminators(u, glyph), Terminator(glyph))
  {
    var d := DropCrsBeforeTerminators(u, glyph);
    if u != [] {
      FirstOfDrop(u, glyph);
      if u[0] != '\r' && glyph && u[0] == NewLine && |u| >= 2 {
        FirstOfDrop(u[1..], glyph);
        assert d == [u[0]] + DropCrsBeforeTerminators(u[1..], glyph);
        assert d[1] == DropCrsBeforeTerminators(u[1..], glyph)[0];
      }
    }
  }

  lemma {:induction false} DropLeavesNoCrBeforeTerminator(t: string, glyph: bool)
    ensures NoCrBefore(DropCrsBeforeTerminators(t, glyph), Terminator(glyph))
    decreases |t|
  {
    if t != [] {
      DropLeavesNoCrBeforeTerminator(t[1..], glyph);
      var rest := DropCrsBeforeTerminators(t[1..], glyph);
      if t[0] == '\r' && RunReachesTerminator(t, glyph) {
        assert DropCrsBeforeTerminators(t, glyph) == rest;
      } else {
        var d := [t[0]] + rest;
        assert DropCrsBeforeTerminators(t, glyph) == d;
        assert d[1..] == rest;
        if t[0] == '\r' {
          RunReachesTail(t, glyph);
          DropHeadNotTerminator(t[1..], glyph);
        }
      }
    }
  }

  /** Positional reading of NoCrBefore. */
  lemma {:induction false} NoCrBeforeAt(s: string, p: string, i: nat)
    requires NoCrBefore(s, p)
    requires i < |s| && s[i] == '\r'
    ensures !StartsWith(s[i + 1..], p)
  {
    if i > 0 {
      NoCrBeforeAt(s[1..], p, i - 1);
      assert s[1..][i..] == s[i + 1..];
    }
  }

  /** Converse of NoCrBeforeAt. */
  lemma {:induction false} NoCrBeforeFromPositions(s: string, p: string)
    requires forall i :: 0 <= i < |s| && s[i] == '\r' ==> !StartsWith(s[i + 1..], p)
    ensures NoCrBefore(s, p)
    decreases |s|
  {
    if s != [] {
      var t := s[1..];
      forall i | 0 <= i < |t| && t[i] == '\r'
        ensures !StartsWith(t[i + 1..], p)
      {
        assert s[i + 1] == '\r';
        assert t[i + 1..] == s[i + 2..];
      }
      NoCrBeforeFromPositions(t, p);
    }
  }

  lemma {:induction false} DropIdentity(s: string, glyph: bool)
    requires NoCrBefore(s, Terminator(glyph))
    ensures DropCrsBeforeTerminators(s, glyph) == s
  {
    if s != [] {
      if s[0] == '\r' && RunReachesTerminator(s, glyph) {
        var k := CrRun(s);
        CrRunIsRun(s);
        assert s[k - 1..][1..] == s[k..];
        NoCrBeforeAt(s, Terminator(glyph), k - 1);
        assert false;
      }
      DropIdentity(s[1..], glyph);
    }
  }

  lemma {:induction false} DropWithoutCrs(t: string, glyph: bool)
    ensures WithoutCrs(DropCrsBeforeTerminators(t, glyph)) == WithoutCrs(t)
  {
    if t != [] {
      DropWithoutCrs(t[1..], glyph);
      var rest := DropCrsBeforeTerminators(t[1..], glyph);
      if t[0] == '\r' && RunReachesTerminator(t, glyph) {
        assert DropCrsBeforeTerminators(t, glyph) == rest;
      } else {
        assert DropCrsBeforeTerminators(t, glyph) == [t[0]] + rest;
        assert ([t[0]] + rest)[1..] == rest;
      }
    }
  }

  /** After stripping, no carriage return is directly followed by a
      terminator. */
  lemma StripLeavesNoCrBeforeTerminator(t: string, glyph: bool)
    ensures NoCrBefore(StripCarriageReturns(t, glyph), Terminator(glyph))
  {
    StripIsDrop(t, glyph);
    DropLeavesNoCrBeforeTerminator(t, glyph);
  }

  /** Stripping changes nothing but carriage returns. */
  lemma StripOnlyRemovesCrs(t: string, glyph: bool)
    ensures WithoutCrs(StripCarriageReturns(t, glyph)) == WithoutCrs(t)
  {
    StripIsDrop(t, glyph);
    DropWithoutCrs(t, glyph);
  }

  /** Stripping leaves a text alone exactly when no carriage return in it is
      directly followed by a terminator. */
  lemma StripFixedPoints(t: string, glyph: bool)
    ensures StripCarriageReturns(t, glyph) == t <==> NoCrBefore(t, Terminator(glyph))
  {
    StripIsDrop(t, glyph);
    DropLeavesNoCrBeforeTerminator(t, glyph);
    if NoCrBefore(t, Terminator(glyph)) {
      DropIdentity(t, glyph);
    }
  }

  /** Stripping twice is stripping once. */
  lemma StripIdempotent(t: string, glyph: bool)
    ensures StripCarriageReturns(StripCarriageReturns(t, glyph), glyph) == StripCarriageReturns(t, glyph)
  {
    StripLeavesNoCrBeforeTerminator(t, glyph);
    StripFixedPoints(StripCarriageReturns(t, glyph), glyph);
  }

  lemma {:induction false} WithoutCrsKeepsNewlines(s: string)
    ensures Count(WithoutCrs(s), '\n') == Count(s, '\n')
  {
    if s != [] {
      WithoutCrsKeepsNewlines(s[1..]);
      if s[0] != '\r' {
        assert WithoutCrs(s) == [s[0]] + WithoutCrs(s[1..]);
        assert ([s[0]] + WithoutCrs(s[1..]))[1..] == WithoutCrs(s[1..]);
      } else {
        assert WithoutCrs(s) == WithoutCrs(s[1..]);
      }
    }
  }

  /** Stripping keeps every line feed. */
  lemma StripKeepsNewlines(t: string, glyph: bool)
    ensures Count(StripCarriageReturns(t, glyph), '\n') == Count(t, '\n')
  {
    StripOnlyRemovesCrs(t, glyph);
    WithoutCrsKeepsNewlines(t);
    WithoutCrsKeepsNewlines(StripCarriageReturns(t, glyph));
  }

  // ---------------------------------------------------------------------
  // Adding

  /** `re.sub("(?<!\r)" + T, "\r" + T, text)` scanned from a position whose
      preceding character (in the original text) is a carriage return exactly
      when `afterCr` holds. A terminator not preceded by a carriage return gets
      one in front of it and the scan resumes after it; otherwise one character
      is copied. Never shorter than its input. */
  function AddCarriageReturnsAfter(t: string, glyph: bool, afterCr: bool): (r: string)
    ensures |r| >= |t|
    decreases |t|
  {
    if t == [] then []
    else if StartsWith(t, Terminator(glyph)) && !afterCr then
      ['\r'] + Terminator(glyph) + AddCarriageReturnsAfter(t[|Terminator(glyph)|..], glyph, false)
    else [t[0]] + AddCarriageReturnsAfter(t[1..], glyph, t[0] == '\r')
  }

  /** The substitution over a whole text (nothing precedes its start). */
  function AddCarriageReturns(t: string, glyph: bool): (r: string)
    ensures |r| >= |t|
  {
    AddCarriageReturnsAfter(t, glyph, false)
  }

  /** Reference reading of adding, one character at a time: every input
      character is kept, and a carriage return is put in front of it exactly
      when a terminator starts there and the input character before it is not
      a carriage return. A terminator that already follows one is left alone,
      wherever it sits. */
  function InsertCrsBeforeBareTerminators(t: string, glyph: bool, afterCr: bool): string
  {
    if t == [] then []
    else
      (if StartsWith(t, Terminator(glyph)) && !afterCr then ['\r'] else []) + [t[0]] +
      InsertCrsBeforeBareTerminators(t[1..], glyph, t[0] == '\r')
  }

  /** The substitution equals the reference reading: it inserts a carriage
      return before each bare terminator and nowhere else. */
  lemma {:induction false} AddIsInsert(t: string, glyph: bool, afterCr: bool)
    ensures AddCarriageReturnsAfter(t, glyph, afterCr) == InsertCrsBeforeBareTerminators(t, glyph, afterCr)
    decreases |t|
  {
    var term := Terminator(glyph);
    if t == [] {
    } else if StartsWith(t, term) && !afterCr {
      var tail := t[|term|..];
      AddIsInsert(tail, glyph, false);
      InsertAtBareTerminator(t, glyph);
    } else {
      AddIsInsert(t[1..], glyph, t[0] == '\r');
      InsertCopies(t, glyph, afterCr);
    }
  }

  /** Where no carriage return goes in, the reference reading copies one
      character. */
  lemma InsertCopies(t: string, glyph: bool, afterCr: bool)
    requires t != [] && !(StartsWith(t, Terminator(glyph)) && !afterCr)
    ensures InsertCrsBeforeBareTerminators(t, glyph, afterCr) ==
            [t[0]] + InsertCrsBeforeBareTerminators(t[1..], glyph, t[0] == '\r')
  {
  }

  /** At a bare terminator the reference reading emits a carriage return and
      the whole terminator, then goes on after it. */
  lemma InsertAtBareTerminator(t: string, glyph: bool)
    requires StartsWith(t, Terminator(glyph))
    ensures InsertCrsBeforeBareTerminators(t, glyph, false) ==
            ['\r'] + Terminator(glyph) + InsertCrsBeforeBareTerminators(t[|Terminator(glyph)|..], glyph, false)
  {
    StartsWithTerminator(t, glyph);
    var rest := InsertCrsBeforeBareTerminators(t[1..], glyph, false);
    assert InsertCrsBeforeBareTerminators(t, glyph, false) == ['\r'] + [t[0]] + rest;
    if glyph {
      // the line feed after the marker starts no terminator of its own
      StartsWithTerminator(t[1..], glyph);
      InsertCopies(t[1..], glyph, false);
      assert t[1..][1..] == t[2..];
      assert rest == ['\n'] + InsertCrsBeforeBareTerminators(t[2..], glyph, false);
    }
  }

  /** The output starts with a terminator only where the input did and a
      carriage return came before it. */
  lemma AddHeadTerminator(v: string, glyph: bool, afterCr: bool)
    ensures StartsWith(AddCarriageReturnsAfter(v, glyph, afterCr), Terminator(glyph)) <==>
            StartsWith(v, Terminator(glyph)) && afterCr
  {
    var a := AddCarriageReturnsAfter(v, glyph, afterCr);
    StartsWithTerminator(a, glyph);
    StartsWithTerminator(v, glyph);
    if v != [] {
      AddFirst(v, glyph, afterCr);
      if !(StartsWith(v, Terminator(glyph)) && !afterCr) && glyph && |v| >= 2 {
        var rest := AddCarriageReturnsAfter(v[1..], glyph, v[0] == '\r');
        assert a == [v[0]] + rest;
        AddFirst(v[1..], glyph, v[0] == '\r');
        StartsWithTerminator(v[1..], glyph);
        assert a[1] == rest[0];
      }
    }
  }

  /** A terminator at the head, character by character. */
  lemma StartsWithTerminator(s: string, glyph: bool)
    ensures StartsWith(s, Terminator(glyph)) <==>
            if glyph then |s| >= 2 && s[0] == NewLine && s[1] == '\n'
            else |s| >= 1 && s[0] == '\n'
  {
    if glyph && |s| >= 2 {
      assert s[..2] == [s[0], s[1]];
    } else if !glyph && |s| >= 1 {
      assert s[..1] == [s[0]];
    }
  }

  /** The first character adding emits. */
  lemma AddFirst(u: string, glyph: bool, afterCr: bool)
    requires u != []
    ensures var a := AddCarriageReturnsAfter(u, glyph, afterCr);
            a != [] && a[0] == if StartsWith(u, Terminator(glyph)) && !afterCr then '\r' else u[0]
  {
  }

  /** After adding, every terminator follows a carriage return. */
  lemma {:induction false} AddLeavesTerminatorsAfterCr(t: string, glyph: bool, afterCr: bool)
    ensures TerminatorsAfterCr(AddCarriageReturnsAfter(t, glyph, afterCr), glyph, afterCr)
    decreases |t|
  {
    var a := AddCarriageReturnsAfter(t, glyph, afterCr);
    var term := Terminator(glyph);
    if t == [] {
    } else if StartsWith(t, term) && !afterCr {
      var rest := AddCarriageReturnsAfter(t[|term|..], glyph, false);
      AddLeavesTerminatorsAfterCr(t[|term|..], glyph, false);
      assert a == ['\r'] + term + rest;
      assert a[1..] == term + rest;
      assert a[0] == '\r';
      if glyph {
        assert a[1..][1..] == ['\n'] + rest;
        assert (['\n'] + rest)[1..] == rest;
      } else {
        assert a[1..][0] == '\n';
        assert a[1..][1..] == rest;
        assert TerminatorsAfterCr(a[1..], glyph, true);
      }
    } else {
      var rest := AddCarriageReturnsAfter(t[1..], glyph, t[0] == '\r');
      AddLeavesTerminatorsAfterCr(t[1..], glyph, t[0] == '\r');
      AddHeadTerminator(t, glyph, afterCr);
      assert a == [t[0]] + rest;
      assert a[0] == t[0];
      assert a[1..] == rest;
      assert TerminatorsAfterCr(a[1..], glyph, a[0] == '\r');
      assert StartsWith(a, term) ==> afterCr;
    }
  }

  /** Positional reading of TerminatorsAfterCr. */
  lemma {:induction false} TerminatorsAfterCrAt(s: string, glyph: bool, afterCr: bool, i: nat)
    requires TerminatorsAfterCr(s, glyph, afterCr)
    requires i < |s| && StartsWith(s[i..], Terminator(glyph))
    ensures if i == 0 then afterCr else s[i - 1] == '\r'
  {
    if i > 0 {
      assert s[1..][i - 1..] == s[i..];
      TerminatorsAfterCrAt(s[1..], glyph, s[0] == '\r', i - 1);
      if i > 1 {
        assert s[1..][i - 2] == s[i - 1];
      }
    }
  }

  /** Converse of TerminatorsAfterCrAt: a text in which every terminator
      follows a carriage return satisfies the recursive reading. */
  lemma {:induction false} TerminatorsAfterCrFromPositions(s: string, glyph: bool, afterCr: bool)
    requires StartsWith(s, Terminator(glyph)) ==> afterCr
    requires forall i :: 1 <= i < |s| && StartsWith(s[i..], Terminator(glyph)) ==> s[i - 1] == '\r'
    ensures TerminatorsAfterCr(s, glyph, afterCr)
    decreases |s|
  {
    if s != [] {
      var t := s[1..];
      forall i | 1 <= i < |t| && StartsWith(t[i..], Terminator(glyph))
        ensures t[i - 1] == '\r'
      {
        assert t[i..] == s[i + 1..];
      }
      if |s| > 1 && StartsWith(t, Terminator(glyph)) {
        assert s[1..] == t;
      }
      TerminatorsAfterCrFromPositions(t, glyph, s[0] == '\r');
    }
  }

  /** Adding leaves a text alone when each of its terminators already follows
      a carriage return. */
  lemma {:induction false} AddIdentity(s: string, glyph: bool, afterCr: bool)
    requires TerminatorsAfterCr(s, glyph, afterCr)
    ensures AddCarriageReturnsAfter(s, glyph, afterCr) == s
    decreases |s|
  {
    if s != [] {
      AddIdentity(s[1..], glyph, s[0] == '\r');
    }
  }

  /** After adding, every terminator in the text follows a carriage return. */
  lemma AddLeavesCrBeforeEveryTerminator(t: string, glyph: bool, i: nat)
    requires i < |AddCarriageReturns(t, glyph)|
    requires StartsWith(AddCarriageReturns(t, glyph)[i..], Terminator(glyph))
    ensures 0 < i && AddCarriageReturns(t, glyph)[i - 1] == '\r'
  {
    AddLeavesTerminatorsAfterCr(t, glyph, false);
    TerminatorsAfterCrAt(AddCarriageReturns(t, glyph), glyph, false, i);
  }

  /** Adding leaves a text alone exactly when each of its terminators already
      follows a carriage return. */
  lemma AddFixedPoints(t: string, glyph: bool)
    ensures AddCarriageReturns(t, glyph) == t <==> TerminatorsAfterCr(t, glyph, false)
  {
    AddLeavesTerminatorsAfterCr(t, glyph, false);
    if TerminatorsAfterCr(t, glyph, false) {
      AddIdentity(t, glyph, false);
    }
  }

  /** Adding twice is adding once. */
  lemma AddIdempotent(t: string, glyph: bool)
    ensures AddCarriageReturns(AddCarriageReturns(t, glyph), glyph) == AddCarriageReturns(t, glyph)
  {
    AddLeavesTerminatorsAfterCr(t, glyph, false);
    AddIdentity(AddCarriageReturns(t, glyph), glyph, false);
  }

  lemma {:induction false} AddWithoutCrs(t: string, glyph: bool, afterCr: bool)
    ensures WithoutCrs(AddCarriageReturnsAfter(t, glyph, afterCr)) == WithoutCrs(t)
    decreases |t|
  {
    var term := Terminator(glyph);
    if t == [] {
    } else if StartsWith(t, term) && !afterCr {
      var rest := AddCarriageReturnsAfter(t[|term|..], glyph, false);
      AddWithoutCrs(t[|term|..], glyph, false);
      assert t == term + t[|term|..];
      assert ['\r'] + term + rest == ['\r'] + (term + rest);
      WithoutCrsConcat(['\r'], term + rest);
      assert WithoutCrs(['\r']) == [];
      WithoutCrsConcat(term, rest);
      WithoutCrsConcat(term, t[|term|..]);
    } else {
      var rest := AddCarriageReturnsAfter(t[1..], glyph, t[0] == '\r');
      AddWithoutCrs(t[1..], glyph, t[0] == '\r');
      assert ([t[0]] + rest)[1..] == rest;
    }
  }

  /** Adding changes nothing but carriage returns. */
  lemma AddOnlyInsertsCrs(t: string, glyph: bool)
    ensures WithoutCrs(AddCarriageReturns(t, glyph)) == WithoutCrs(t)
  {
    AddWithoutCrs(t, glyph, false);
  }

  /** Adding keeps every line feed. */
  lemma AddKeepsNewlines(t: string, glyph: bool)
    ensures Count(AddCarriageReturns(t, glyph), '\n') == Count(t, '\n')
  {
    AddOnlyInsertsCrs(t, glyph);
    WithoutCrsKeepsNewlines(t);
    WithoutCrsKeepsNewlines(AddCarriageReturns(t, glyph));
  }

  /** Adding never changes whether a run of carriage returns reaches a
      terminator. */
  lemma {:induction false} AddKeepsRunReach(u: string, glyph: bool, afterCr: bool)
    ensures RunReachesTerminator(AddCarriageReturnsAfter(u, glyph, afterCr), glyph) ==
            RunReachesTerminator(u, glyph)
    decreases |u|
  {
    var a := AddCarriageReturnsAfter(u, glyph, afterCr);
    var term := Terminator(glyph);
    if u == [] {
    } else if u[0] == '\r' {
      assert !StartsWith(u, term);
      var rest := AddCarriageReturnsAfter(u[1..], glyph, true);
      assert a == ['\r'] + rest;
      assert a[1..] == rest;
      AddKeepsRunReach(u[1..], glyph, true);
      RunReachesTail(u, glyph);
      RunReachesTail(a, glyph);
    } else if StartsWith(u, term) && !afterCr {
      var rest := AddCarriageReturnsAfter(u[|term|..], glyph, false);
      assert a == ['\r'] + term + rest;
      assert a[1..] == term + rest;
      RunReachesTail(a, glyph);
      assert CrRun(a[1..]) == 0;
      assert (term + rest)[..|term|] == term;
    } else {
      assert CrRun(u) == 0;
      AddHeadTerminator(u, glyph, afterCr);
      assert a[0] == u[0];
      assert CrRun(a) == 0;
    }
  }

  /** One step of the per-character reading on a text `[c] + v`. */
  lemma DropCons(c: char, v: string, glyph: bool)
    ensures DropCrsBeforeTerminators([c] + v, glyph) ==
            (if c == '\r' && RunReachesTerminator([c] + v, glyph) then [] else [c]) +
            DropCrsBeforeTerminators(v, glyph)
  {
    assert ([c] + v)[0] == c && ([c] + v)[1..] == v;
  }

  /** A single carriage return in front of a terminator is dropped. */
  lemma DropCrBeforeTerminator(v: string, glyph: bool)
    requires StartsWith(v, Terminator(glyph))
    ensures DropCrsBeforeTerminators(['\r'] + v, glyph) == DropCrsBeforeTerminators(v, glyph)
  {
    var a := ['\r'] + v;
    assert v[..|Terminator(glyph)|] == Terminator(glyph);
    assert v[0] != '\r';
    assert a[1..] == v;
    RunReachesTail(a, glyph);
    assert CrRun(v) == 0;
    assert RunReachesTerminator(a, glyph);
    DropCons('\r', v, glyph);
  }

  /** Where adding put a carriage return before a terminator, the reading
      drops it again and keeps the terminator. */
  lemma DropInsertedCr(t: string, rest: string, glyph: bool)
    requires StartsWith(t, Terminator(glyph))
    requires DropCrsBeforeTerminators(rest, glyph) ==
             DropCrsBeforeTerminators(t[|Terminator(glyph)|..], glyph)
    ensures DropCrsBeforeTerminators(['\r'] + Terminator(glyph) + rest, glyph) ==
            DropCrsBeforeTerminators(t, glyph)
  {
    var term := Terminator(glyph);
    assert ['\r'] + term + rest == ['\r'] + (term + rest);
    assert StartsWith(term + rest, term) by {
      assert (term + rest)[..|term|] == term;
    }
    DropCrBeforeTerminator(term + rest, glyph);
    DropTerminator(term + rest, glyph);
    assert (term + rest)[|term|..] == rest;
    DropTerminator(t, glyph);
  }

  /** Where adding copied a character, the reading treats it alike. */
  lemma DropCopiedChar(t: string, rest: string, glyph: bool)
    requires t != []
    requires DropCrsBeforeTerminators(rest, glyph) == DropCrsBeforeTerminators(t[1..], glyph)
    requires RunReachesTerminator([t[0]] + rest, glyph) == RunReachesTerminator(t, glyph)
    ensures DropCrsBeforeTerminators([t[0]] + rest, glyph) == DropCrsBeforeTerminators(t, glyph)
  {
    var head := if t[0] == '\r' && RunReachesTerminator(t, glyph) then [] else [t[0]];
    assert DropCrsBeforeTerminators(t, glyph) == head + DropCrsBeforeTerminators(t[1..], glyph);
    DropCons(t[0], rest, glyph);
  }

  lemma {:induction false} DropAfterAdd(t: string, glyph: bool, afterCr: bool)
    ensures DropCrsBeforeTerminators(AddCarriageReturnsAfter(t, glyph, afterCr), glyph) ==
            DropCrsBeforeTerminators(t, glyph)
    decreases |t|
  {
    var term := Terminator(glyph);
    if t == [] {
    } else if StartsWith(t, term) && !afterCr {
      var rest := AddCarriageReturnsAfter(t[|term|..], glyph, false);
      DropAfterAdd(t[|term|..], glyph, false);
      DropInsertedCr(t, rest, glyph);
    } else {
      var rest := AddCarriageReturnsAfter(t[1..], glyph, t[0] == '\r');
      DropAfterAdd(t[1..], glyph, t[0] == '\r');
      AddKeepsRunReach(t, glyph, afterCr);
      DropCopiedChar(t, rest, glyph);
    }
  }

  /** Stripping after adding is stripping: the carriage returns adding puts in
      are exactly ones stripping takes out. */
  lemma StripAfterAdd(t: string, glyph: bool)
    ensures StripCarriageReturns(AddCarriageReturns(t, glyph), glyph) == StripCarriageReturns(t, glyph)
  {
    StripIsDrop(AddCarriageReturns(t, glyph), glyph);
    StripIsDrop(t, glyph);
    DropAfterAdd(t, glyph, false);
  }

  /** Adding to a text in which no carriage return precedes a terminator
      gives each terminator exactly one carriage return. */
  lemma {:induction false} AddKeepsSingleCr(s: string, glyph: bool, afterCr: bool)
    requires NoCrBefore(s, Terminator(glyph))
    requires afterCr ==> !StartsWith(s, Terminator(glyph))
    ensures NoCrBefore(AddCarriageReturnsAfter(s, glyph, afterCr), ['\r'] + Terminator(glyph))
    decreases |s|
  {
    var term := Terminator(glyph);
    var crTerm := ['\r'] + term;
    if s == [] {
    } else if StartsWith(s, term) && !afterCr {
      var tail := s[|term|..];
      var rest := AddCarriageReturnsAfter(tail, glyph, false);
      assert AddCarriageReturnsAfter(s, glyph, afterCr) == ['\r'] + (term + rest);
      if glyph {
        assert s[1..][1..] == tail;
      }
      AddKeepsSingleCr(tail, glyph, false);
      if glyph {
        NoCrBeforeCons('\n', rest, crTerm);
        assert [NewLine] + (['\n'] + rest) == term + rest;
        NoCrBeforeCons(NewLine, ['\n'] + rest, crTerm);
      } else {
        NoCrBeforeCons('\n', rest, crTerm);
      }
      NoCrBeforeCons('\r', term + rest, crTerm);
    } else {
      var rest := AddCarriageReturnsAfter(s[1..], glyph, s[0] == '\r');
      assert AddCarriageReturnsAfter(s, glyph, afterCr) == [s[0]] + rest;
      AddKeepsSingleCr(s[1..], glyph, s[0] == '\r');
      if s[0] == '\r' {
        CrThenAdd(s[1..], glyph);
      }
      NoCrBeforeCons(s[0], rest, crTerm);
    }
  }

  /** One step of NoCrBefore on a text `[c] + v`. */
  lemma NoCrBeforeCons(c: char, v: string, p: string)
    requires NoCrBefore(v, p)
    requires c == '\r' ==> !StartsWith(v, p)
    ensures NoCrBefore([c] + v, p)
  {
    assert ([c] + v)[0] == c && ([c] + v)[1..] == v;
  }

  /** After a carriage return, adding cannot produce a second carriage return
      and a terminator unless the input already had them. */
  lemma CrThenAdd(v: string, glyph: bool)
    requires !StartsWith(v, Terminator(glyph))
    requires v != [] && v[0] == '\r' ==> !StartsWith(v[1..], Terminator(glyph))
    ensures !StartsWith(AddCarriageReturnsAfter(v, glyph, true), ['\r'] + Terminator(glyph))
  {
    var a := AddCarriageReturnsAfter(v, glyph, true);
    StartsWithCons(a, '\r', Terminator(glyph));
    if v != [] {
      var rest := AddCarriageReturnsAfter(v[1..], glyph, v[0] == '\r');
      assert a == [v[0]] + rest;
      assert a[0] == v[0] && a[1..] == rest;
      if v[0] == '\r' {
        AddHeadTerminator(v[1..], glyph, true);
      }
    }
  }

  lemma StartsWithCons(s: string, c: char, p: string)
    ensures StartsWith(s, [c] + p) <==> s != [] && s[0] == c && StartsWith(s[1..], p)
  {
    if s != [] && |p| + 1 <= |s| {
      assert s[..|p| + 1] == [s[0]] + s[1..][..|p|];
    }
  }

  /** Adding after stripping puts exactly one carriage return before each
      terminator: every terminator follows a carriage return, and no carriage
      return is followed by a second one and a terminator. */
  lemma AddAfterStrip(t: string, glyph: bool)
    ensures TerminatorsAfterCr(AddCarriageReturns(StripCarriageReturns(t, glyph), glyph), glyph, false)
    ensures NoCrBefore(AddCarriageReturns(StripCarriageReturns(t, glyph), glyph), ['\r'] + Terminator(glyph))
  {
    var s := StripCarriageReturns(t, glyph);
    StripLeavesNoCrBeforeTerminator(t, glyph);
    AddLeavesTerminatorsAfterCr(s, glyph, false);
    AddKeepsSingleCr(s, glyph, false);
  }

  // ---------------------------------------------------------------------
  // Glyph form

  lemma {:induction false} DropKeepsMarked(t: string, glyph: bool, afterMarker: bool)
    requires MarkedFrom(t, afterMarker)
    ensures MarkedFrom(DropCrsBeforeTerminators(t, glyph), afterMarker)
  {
    if t != [] {
      var rest := DropCrsBeforeTerminators(t[1..], glyph);
      DropKeepsMarked(t[1..], glyph, t[0] == NewLine);
      if t[0] == '\r' && RunReachesTerminator(t, glyph) {
        assert DropCrsBeforeTerminators(t, glyph) == rest;
        if afterMarker {
          MarkedFromWeaken(rest);
        }
      } else {
        var r := [t[0]] + rest;
        assert DropCrsBeforeTerminators(t, glyph) == r;
        assert r[0] == t[0] && r[1..] == rest;
      }
    }
  }

  /** Stripping removes only carriage returns, none of them between a marker
      and its line feed, so a text in glyph form stays in glyph form. */
  lemma StripKeepsGlyphForm(t: string, glyph: bool)
    requires GlyphForm(t)
    ensures GlyphForm(StripCarriageReturns(t, glyph))
  {
    GlyphFormIsMarked(t);
    DropKeepsMarked(t, glyph, false);
    StripIsDrop(t, glyph);
    GlyphFormIsMarked(StripCarriageReturns(t, glyph));
  }

  lemma {:induction false} AddKeepsMarked(t: string, afterCr: bool, afterMarker: bool)
    requires MarkedFrom(t, afterMarker)
    ensures MarkedFrom(AddCarriageReturnsAfter(t, true, afterCr), afterMarker)
  {
    if t == [] {
    } else if StartsWith(t, Terminator(true)) && !afterCr {
      assert t[0] == NewLine && t[1] == '\n';
      assert MarkedFrom(t[1..], true);
      assert t[1..][1..] == t[2..];
      assert MarkedFrom(t[2..], false);
      var rest := AddCarriageReturnsAfter(t[2..], true, false);
      AddKeepsMarked(t[2..], false, false);
      var r := ['\r', NewLine, '\n'] + rest;
      assert AddCarriageReturnsAfter(t, true, afterCr) == r;
      assert r[1..][1..][1..] == rest;
      assert MarkedFrom(r[1..][1..], true);
      assert MarkedFrom(r[1..], false);
    } else {
      var rest := AddCarriageReturnsAfter(t[1..], true, t[0] == '\r');
      AddKeepsMarked(t[1..], t[0] == '\r', t[0] == NewLine);
      var r := [t[0]] + rest;
      assert AddCarriageReturnsAfter(t, true, afterCr) == r;
      assert r[0] == t[0] && r[1..] == rest;
    }
  }

  /** In glyph mode the carriage return goes in front of the marker, so a text
      in glyph form stays in glyph form. */
  lemma AddKeepsGlyphForm(t: string)
    requires GlyphForm(t)
    ensures GlyphForm(AddCarriageReturns(t, true))
  {
    GlyphFormIsMarked(t);
    AddKeepsMarked(t, false, false);
    GlyphFormIsMarked(AddCarriageReturns(t, true));
  }
}
