/** What the string operations of `PyText` mean: the characters they treat as white space and as line breaks, and what
    stripping and splitting leave of a text. */
module PyTextLaws {
  import opened Wrappers
  import opened PyText
  import opened Hunks

  // ---------------------------------------------------------------- characters

  /** White space that does not end a line: tab, unit separator, blank and the blanks of other widths. */
  const BLANKS: seq<int> := [
    0x09, 0x1F, 0x20, 0xA0, 0x1680, 0x2000, 0x2001, 0x2002, 0x2003, 0x2004, 0x2005, 0x2006, 0x2007, 0x2008, 0x2009,
    0x200A, 0x202F, 0x205F, 0x3000
  ]

  /** `\n`, `\v`, `\f`, `\r`, the three information separators, next line, line and paragraph separator. */
  const BREAKS: seq<int> := [0x0A, 0x0B, 0x0C, 0x0D, 0x1C, 0x1D, 0x1E, 0x85, 0x2028, 0x2029]

  /** Every line break is white space, and there are nineteen other white-space characters. */
  lemma SpacesExact(c: char)
    ensures IsBreak(c) <==> c as int in BREAKS
    ensures IsSpace(c) <==> c as int in BREAKS || c as int in BLANKS
  {}

  // ---------------------------------------------------------------- stripping

  /** Nothing but white space is cut off, and no more of it is left at either end. */
  ghost predicate IsStripped(s: string, r: string) {
    && (r == "" || Trimmed(r))
    && exists left, right :: Blank(left) && Blank(right) && s == left + r + right
  }

  lemma {:induction false} LStripExact(s: string)
    ensures LStrip(s) == "" || !IsSpace(LStrip(s)[0])
    ensures exists left :: Blank(left) && s == left + LStrip(s)
  {
    if s != "" && IsSpace(s[0]) {
      LStripExact(s[1..]);
      var left :| Blank(left) && s[1..] == left + LStrip(s[1..]);
      assert Blank([s[0]] + left) && s == [s[0]] + left + LStrip(s);
    } else {
      assert Blank("") && s == "" + LStrip(s);
    }
  }

  lemma {:induction false} RStripExact(s: string)
    ensures RStrip(s) == "" || !IsSpace(RStrip(s)[|RStrip(s)| - 1])
    ensures exists right :: Blank(right) && s == RStrip(s) + right
  {
    if s != "" && IsSpace(s[|s| - 1]) {
      var n := |s| - 1;
      RStripExact(s[..n]);
      var right :| Blank(right) && s[..n] == RStrip(s[..n]) + right;
      assert Blank(right + [s[n]]) && s == RStrip(s) + (right + [s[n]]);
    } else {
      assert Blank("") && s == RStrip(s) + "";
    }
  }

  lemma StripExact(s: string)
    ensures IsStripped(s, Strip(s))
  {
    var t := RStrip(s);
    RStripExact(s);
    LStripExact(t);
    var right :| Blank(right) && s == t + right;
    var left :| Blank(left) && t == left + LStrip(t);
    assert s == left + Strip(s) + right;
  }

  // ---------------------------------------------------------------- splitting

  /** `sep.join(parts)` */
  function Join(parts: seq<string>, sep: char): string
    requires parts != []
  {
    if |parts| == 1 then parts[0] else parts[0] + [sep] + Join(parts[1..], sep)
  }

  /** The parts hold no separator, and joining them gives the text back. */
  lemma {:induction false} SplitOnExact(s: string, sep: char)
    ensures Join(SplitOn(s, sep), sep) == s
    ensures forall i :: 0 <= i < |SplitOn(s, sep)| ==> sep !in SplitOn(s, sep)[i]
  {
    if s == "" {
    } else {
      SplitOnExact(s[1..], sep);
      var more := SplitOn(s[1..], sep);
      assert s == [s[0]] + s[1..];
      if s[0] == sep {
        assert ([""] + more)[1..] == more;
      } else {
        var parts := SplitOn(s, sep);
        assert parts[0] == [s[0]] + more[0] && parts[1..] == more[1..];
        assert |more| == 1 || Join(more, sep) == more[0] + [sep] + Join(more[1..], sep);
        assert |more| == 1 || Join(parts, sep) == [s[0]] + (more[0] + [sep] + Join(more[1..], sep));
      }
    }
  }

  lemma FindOccurs(s: string, pat: string)
    ensures Find(s, pat).Some? <==> Occurs(pat, s)
  {
    FindFirst(s, pat);
    if Find(s, pat).Some? {
      assert pat <= s[Find(s, pat).value..];
    }
  }
}
