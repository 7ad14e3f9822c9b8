/** The pattern with which `files_from_patch` reads file names: where its group starts, for any text. */
module PatchNames {
  import opened Wrappers
  import opened PyText
  import opened Hunks
  import opened EditReplay

  /** Behind `+++` and some white space, and perhaps `b/`, there is a character that the group can begin with. */
  ghost predicate CanStart(s: string, g: nat) {
    && "+++" <= s && g < |s| && s[g] != '\n'
    && exists i :: 3 < i <= g && Blank(s[3..i]) && (g == i || s[i..g] == "b/")
  }

  /** The group starts at the last place where it can: white space and `b/` are skipped as far as possible, also across
      lines. */
  lemma GroupExact(s: string)
    ensures GroupStart(s).None? ==> forall g: nat :: !CanStart(s, g)
    ensures GroupStart(s).Some? ==>
              var g := GroupStart(s).value; CanStart(s, g) && forall g': nat :: CanStart(s, g') ==> g' <= g
  {
    if "+++" <= s {
      var t, w := s[3..], SpaceSpan(s[3..]);
      if w == 0 {
        NoGap(s);
      } else if w < |t| {
        SolidStart(s, w);
      } else {
        BlankRest(s);
      }
    }
  }

  lemma NoGap(s: string)
    requires "+++" <= s && SpaceSpan(s[3..]) == 0
    ensures forall g: nat :: !CanStart(s, g)
  {
    forall i | 3 < i <= |s|
      ensures !Blank(s[3..i])
    {
      assert s[3..i][0] == s[3..][0];
    }
  }

  lemma BlankUpTo(s: string, w: nat)
    requires 3 + w < |s| && w == SpaceSpan(s[3..])
    ensures Blank(s[3..3 + w]) && forall i :: 3 + w < i <= |s| ==> !Blank(s[3..i])
  {
    forall i | 3 + w < i <= |s|
      ensures !Blank(s[3..i])
    {
      assert s[3..i][w] == s[3..][w];
    }
    assert forall k :: 0 <= k < w ==> s[3..3 + w][k] == s[3..][k];
  }

  /** The white space ends inside the text. */
  lemma SolidStart(s: string, w: nat)
    requires "+++" <= s && 0 < w == SpaceSpan(s[3..]) && 3 + w < |s|
    ensures GroupStart(s).Some?
    ensures var g := GroupStart(s).value; CanStart(s, g) && forall g': nat :: CanStart(s, g') ==> g' <= g
  {
    var i, t := 3 + w, s[3..];
    var g := GroupStart(s).value;
    BlankUpTo(s, w);
    assert t[w..] == s[i..] && t[w] == s[i];
    MarkAt(s, i);
    assert g == if i + 2 < |s| && s[i..i + 2] == "b/" && s[i + 2] != '\n' then i + 2 else i;
    forall g': nat | CanStart(s, g')
      ensures g' <= g
    {
      var k :| 3 < k <= g' && Blank(s[3..k]) && (g' == k || s[k..g'] == "b/");
      assert k <= i;
      if k < i {
        assert IsSpace(s[3..i][k - 3]);
        NotMark(s, k, g');
      }
    }
  }

  lemma MarkAt(s: string, i: nat)
    requires i <= |s|
    ensures "b/" <= s[i..] <==> i + 2 <= |s| && s[i..i + 2] == "b/"
  {
    assert "b/" <= s[i..] ==> s[i..][..2] == s[i..i + 2];
    assert i + 2 <= |s| ==> s[i..][..2] == s[i..i + 2];
  }

  lemma NotMark(s: string, k: nat, g: nat)
    requires k <= g <= |s| && k < |s| && IsSpace(s[k])
    ensures s[k..g] != "b/"
  {
    if k < g {
      assert s[k..g][0] == s[k];
    }
  }

  /** Nothing but white space is left: the group takes its last character that is not a line end. */
  lemma BlankRest(s: string)
    requires "+++" <= s && |s| > 3 && SpaceSpan(s[3..]) == |s| - 3
    ensures GroupStart(s).None? ==> forall g: nat :: !CanStart(s, g)
    ensures GroupStart(s).Some? ==>
              var g := GroupStart(s).value; CanStart(s, g) && forall g': nat :: CanStart(s, g') ==> g' <= g
  {
    var t := s[3..];
    assert forall k :: 3 <= k < |s| ==> t[k - 3] == s[k];
    var j := BackTrack(t, |t|);
    if j != 0 {
      assert Blank(s[3..3 + j]);
      assert CanStart(s, 3 + j);
    }
    forall g: nat | CanStart(s, g)
      ensures j != 0 && g <= 3 + j
    {
      var i :| 3 < i <= g && Blank(s[3..i]) && (g == i || s[i..g] == "b/");
      assert IsSpace(t[i - 3]) && i < |s|;
      NotMark(s, i, g);
      assert t[g - 3] != '\n';
    }
  }

  /** A `+++` line without `b/` names what stands behind the white space, and `/dev/null` is no file. */
  lemma PlainNameRead(gap: string, name: string, rest: string)
    requires gap != "" && Blank(gap) && NewlineFree(gap) && NewlineFree(name)
    requires name != "" && !IsSpace(name[0]) && !("b/" <= name)
    ensures FilesFrom("+++" + gap + name + "\n" + rest) ==
            (if Strip(name) == "/dev/null" then {} else {ReplaceChar(Strip(name), '\\', '/')}) + FilesFrom(rest)
  {
    hide Eol, FilesFrom, Strip, BackTrack, SpaceSpan, LineAfter, NewlineFree;
    var l := "+++" + gap + name;
    var s, g := l + "\n" + rest, 3 + |gap|;
    assert s[3..] == gap + (name + "\n" + rest);
    SpanOfGap(gap, name + "\n" + rest);
    LineNewlineFree(gap, name);
    assert s[3..][|gap|..] == name + "\n" + rest;
    NotMarked(name, rest);
    assert GroupStart(s) == Some(g);
    LineAfterLine(l, rest, g);
    assert s[g..g + |name|] == name;
    FilesStep(s, g);
  }

  lemma SpanOfGap(gap: string, more: string)
    requires Blank(gap) && more != "" && !IsSpace(more[0])
    ensures SpaceSpan(gap + more) == |gap|
  {
    var s := gap + more;
    assert forall i :: 0 <= i < |gap| ==> s[i] == gap[i];
    assert s[|gap|] == more[0];
    SpaceSpanIs(s, |gap|);
  }

  lemma LineNewlineFree(gap: string, name: string)
    requires NewlineFree(gap) && NewlineFree(name)
    ensures NewlineFree("+++" + gap + name)
  {}

  lemma NotMarked(name: string, rest: string)
    requires name != "" && !("b/" <= name)
    ensures !("b/" <= name + "\n" + rest)
  {
    var s := name + "\n" + rest;
    assert s[|name|] == '\n';
    assert |name| >= 2 ==> s[..2] == name[..2];
  }
}
