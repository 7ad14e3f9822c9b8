/** Cutting a character stream into lines at `\n` and `\r`, however it arrives: the buffer loop of
    `_stream_harness_process` in `swe_run.py`. */
module StreamLines {
  import opened PyText

  predicate IsCut(c: char) {
    c == '\n' || c == '\r'
  }

  predicate CutFree(s: string) {
    forall i :: 0 <= i < |s| ==> !IsCut(s[i])
  }

  /** The text split at each `\n` or `\r`. */
  function Pieces(s: string): (r: seq<string>)
    ensures r != []
  {
    if s == "" then [""]
    else if IsCut(s[0]) then [""] + Pieces(s[1..])
    else
      var r := Pieces(s[1..]);
      [[s[0]] + r[0]] + r[1..]
  }

  /** A piece as it is delivered: stripped, and not at all when nothing is left. */
  function CleanOne(l: string): seq<string> {
    if Strip(l) == "" then [] else [Strip(l)]
  }

  function Clean(ps: seq<string>): seq<string> {
    if ps == [] then [] else CleanOne(ps[0]) + Clean(ps[1..])
  }

  /** The non-blank stripped pieces of a whole stream. */
  function Delivered(s: string): seq<string> {
    Clean(Pieces(s))
  }

  lemma {:induction false} PiecesAtCut(l: string, c: char, rest: string)
    requires CutFree(l) && IsCut(c)
    ensures Pieces(l + [c] + rest) == [l] + Pieces(rest)
  {
    var s := l + [c] + rest;
    if l == "" {
      assert s[1..] == rest;
    } else {
      assert s[1..] == l[1..] + [c] + rest;
      PiecesAtCut(l[1..], c, rest);
      assert [l[0]] + l[1..] == l;
    }
  }

  lemma {:induction false} PiecesWhole(l: string)
    requires CutFree(l)
    ensures Pieces(l) == [l]
  {
    if l == "" {
    } else {
      PiecesWhole(l[1..]);
      assert [l[0]] + l[1..] == l;
    }
  }

  /** The delivered lines of a stream are those of the first piece and those of the rest. */
  lemma DeliveredAtCut(l: string, c: char, rest: string)
    requires CutFree(l) && IsCut(c)
    ensures Delivered(l + [c] + rest) == CleanOne(l) + Delivered(rest)
  {
    hide Pieces, CleanOne;
    PiecesAtCut(l, c, rest);
    assert ([l] + Pieces(rest))[1..] == Pieces(rest);
  }

  lemma DeliveredWhole(l: string)
    requires CutFree(l)
    ensures Delivered(l) == CleanOne(l)
  {
    hide CleanOne, Pieces;
    PiecesWhole(l);
    var one := [l];
    assert one[1..] == [];
    assert Clean(one[1..]) == [];
    assert Clean(one) == CleanOne(l) + [];
  }

  /** A `\n` right behind a cut only adds a blank piece. */
  lemma DeliveredNewline(rest: string)
    ensures Delivered("\n" + rest) == Delivered(rest)
  {}

  function Cuts(s: string): string {
    if s == "" then "" else if IsCut(s[0]) then [s[0]] + Cuts(s[1..]) else Cuts(s[1..])
  }

  function Interleave(ps: seq<string>, cuts: string): string
    requires |ps| == |cuts| + 1
  {
    if cuts == "" then ps[0] else ps[0] + [cuts[0]] + Interleave(ps[1..], cuts[1..])
  }

  lemma {:induction false} PiecesCutFree(s: string)
    ensures forall i :: 0 <= i < |Pieces(s)| ==> CutFree(Pieces(s)[i])
  {
    if s == "" {
    } else {
      PiecesCutFree(s[1..]);
    }
  }

  lemma InterleaveCut(a: char, ps: seq<string>, cuts: string)
    requires |ps| == |cuts| + 1
    ensures Interleave([""] + ps, [a] + cuts) == [a] + Interleave(ps, cuts)
  {
    assert ([""] + ps)[1..] == ps && ([a] + cuts)[1..] == cuts;
  }

  lemma InterleaveGrow(a: char, ps: seq<string>, cuts: string)
    requires |ps| == |cuts| + 1
    ensures Interleave([[a] + ps[0]] + ps[1..], cuts) == [a] + Interleave(ps, cuts)
  {
    var first, more := [a] + ps[0], [[a] + ps[0]] + ps[1..];
    assert more[1..] == ps[1..];
    if cuts != "" {
      Assoc([a], ps[0], [cuts[0]]);
      Assoc([a], ps[0] + [cuts[0]], Interleave(ps[1..], cuts[1..]));
    }
  }

  lemma {:induction false} PiecesRejoin(s: string)
    ensures |Pieces(s)| == |Cuts(s)| + 1 && Interleave(Pieces(s), Cuts(s)) == s
  {
    if s == "" {
    } else {
      hide IsCut;
      PiecesRejoin(s[1..]);
      var r, c := Pieces(s[1..]), Cuts(s[1..]);
      assert s == [s[0]] + s[1..];
      if IsCut(s[0]) {
        InterleaveCut(s[0], r, c);
      } else {
        InterleaveGrow(s[0], r, c);
      }
    }
  }

  /** The pieces hold everything but the cuts: they are cut-free, and with the cuts put back between them
      they are the stream. */
  lemma {:induction false} PiecesExact(s: string)
    ensures forall i :: 0 <= i < |Pieces(s)| ==> CutFree(Pieces(s)[i])
    ensures |Pieces(s)| == |Cuts(s)| + 1 && Interleave(Pieces(s), Cuts(s)) == s
  {
    PiecesCutFree(s);
    PiecesRejoin(s);
  }

  // ---------------------------------------------------------------- chunks

  /** What is received before the first empty chunk, which means end of file. */
  function Received(chunks: seq<string>): string {
    if chunks == [] || chunks[0] == "" then "" else chunks[0] + Received(chunks[1..])
  }

  /** `buf.find(c)` */
  function IndexOf(s: string, c: char): (r: int)
    ensures -1 <= r < |s|
    ensures r >= 0 ==> s[r] == c && forall i :: 0 <= i < r ==> s[i] != c
    ensures r < 0 ==> forall i :: 0 <= i < |s| ==> s[i] != c
  {
    if s == "" then -1
    else if s[0] == c then 0
    else
      var r := IndexOf(s[1..], c);
      if r < 0 then -1 else r + 1
  }

  /** The cut that the loops take: the nearer of the two, or -1. */
  function NextCut(s: string): (r: int)
    ensures -1 <= r < |s|
    ensures r >= 0 ==> IsCut(s[r]) && CutFree(s[..r])
    ensures r < 0 ==> CutFree(s)
  {
    var n, r := IndexOf(s, '\n'), IndexOf(s, '\r');
    if n < 0 then r else if r < 0 then n else if n <= r then n else r
  }

  lemma CutBuffer(buf: string, rest: string)
    requires NextCut(buf) >= 0
    ensures var i := NextCut(buf);
            Delivered(buf + rest) == CleanOne(buf[..i]) + Delivered(buf[i + 1..] + rest)
  {
    hide NextCut, Delivered, CleanOne;
    var i := NextCut(buf);
    assert buf + rest == buf[..i] + [buf[i]] + (buf[i + 1..] + rest);
    DeliveredAtCut(buf[..i], buf[i], buf[i + 1..] + rest);
  }

  /** The inner loop: cut lines off the buffer while it holds a cut. */
  method CutLines(buf0: string, lines0: seq<string>, ghost rest: string)
    returns (buf: string, lines: seq<string>)
    ensures CutFree(buf)
    ensures lines + Delivered(buf + rest) == lines0 + Delivered(buf0 + rest)
  {
    hide NextCut, Delivered, Strip;
    buf, lines := buf0, lines0;
    while true
      invariant lines + Delivered(buf + rest) == lines0 + Delivered(buf0 + rest)
      decreases |buf|
    {
      var cut := NextCut(buf);
      if cut < 0 {
        break;
      }
      CutBuffer(buf, rest);
      var line := buf[..cut];
      var idxR := IndexOf(buf, '\r');
      buf := buf[cut + 1..];
      if "\n" <= buf && cut == idxR {
        assert buf + rest == "\n" + (buf[1..] + rest);
        DeliveredNewline(buf[1..] + rest);
        buf := buf[1..];
      }
      var cleaned := Strip(line);
      if cleaned != "" {
        lines := lines + [cleaned];
      }
    }
  }

  /** `_stream_harness_process`: the lines handed to the callback are the non-blank stripped pieces of the
      whole stream, however it is cut into chunks. */
  method StreamHarness(chunks: seq<string>) returns (lines: seq<string>)
    ensures lines == Delivered(Received(chunks))
  {
    hide Delivered, Strip;
    var buf := "";
    lines := [];
    var i := 0;
    assert chunks[0..] == chunks;
    assert buf + Received(chunks) == Received(chunks);
    while i < |chunks| && chunks[i] != ""
      invariant i <= |chunks|
      invariant CutFree(buf)
      invariant lines + Delivered(buf + Received(chunks[i..])) == Delivered(Received(chunks))
    {
      assert chunks[i..][1..] == chunks[i + 1..];
      var rest := Received(chunks[i + 1..]);
      assert buf + Received(chunks[i..]) == buf + chunks[i] + rest;
      buf, lines := CutLines(buf + chunks[i], lines, rest);
      i := i + 1;
    }
    assert Received(chunks[i..]) == "";
    assert buf + "" == buf;
    DeliveredWhole(buf);
    var leftover := Strip(buf);
    if leftover != "" {
      lines := lines + [leftover];
    }
  }

  // ---------------------------------------------------------------- universal newlines

  /** `s.replace("\r\n", "\n")` */
  function MergeReturns(s: string): string {
    if s == "" then ""
    else if "\r\n" <= s then "\n" + MergeReturns(s[2..])
    else [s[0]] + MergeReturns(s[1..])
  }

  /** `s.replace("\r\n", "\n").replace("\r", "\n")` */
  function Universal(s: string): string {
    ReplaceChar(MergeReturns(s), '\r', '\n')
  }

  lemma {:induction false} UniversalPrefix(l: string, rest: string)
    requires CutFree(l)
    ensures Universal(l + rest) == l + Universal(rest)
  {
    if l == "" {
      assert l + rest == rest;
    } else {
      var s := l + rest;
      assert s[0] != '\r';
      assert s[1..] == l[1..] + rest;
      UniversalPrefix(l[1..], rest);
      assert Universal(s) == [l[0]] + Universal(s[1..]);
    }
  }

  lemma UniversalCut(c: char, rest: string)
    requires IsCut(c)
    ensures Universal([c] + rest) ==
            "\n" + Universal(if c == '\r' && "\n" <= rest then rest[1..] else rest)
  {
    var s := [c] + rest;
    assert s[1..] == rest;
    assert "\r\n" <= s <==> |s| >= 2 && s[0] == '\r' && s[1] == '\n';
    assert "\n" <= rest <==> |rest| >= 1 && rest[0] == '\n';
    if c == '\r' && "\n" <= rest {
      assert s[2..] == rest[1..];
    }
  }

  lemma {:induction false} UniversalDelivered(s: string)
    ensures Delivered(Universal(s)) == Delivered(s)
    decreases |s|
  {
    hide Delivered, Universal, CleanOne, NextCut;
    var i := NextCut(s);
    if i < 0 {
      UniversalPrefix(s, "");
      assert s + "" == s;
      EmptyUniversal();
    } else {
      var l, c, rest := s[..i], s[i], s[i + 1..];
      assert s == l + ([c] + rest);
      assert l + ([c] + rest) == l + [c] + rest;
      UniversalPrefix(l, [c] + rest);
      UniversalCut(c, rest);
      DeliveredAtCut(l, c, rest);
      var rest' := if c == '\r' && "\n" <= rest then rest[1..] else rest;
      UniversalDelivered(rest');
      assert l + ("\n" + Universal(rest')) == l + ['\n'] + Universal(rest');
      DeliveredAtCut(l, '\n', Universal(rest'));
      if rest' != rest {
        assert rest == "\n" + rest';
        DeliveredNewline(rest');
      }
    }
  }

  lemma EmptyUniversal()
    ensures Universal("") == ""
  {}

  lemma {:induction false} SplitIsPieces(s: string)
    requires forall i :: 0 <= i < |s| ==> s[i] != '\r'
    ensures SplitOn(s, '\n') == Pieces(s)
  {
    if s == "" {
    } else {
      SplitIsPieces(s[1..]);
    }
  }

  /** Cutting after replacing all returns gives the same lines. */
  lemma FeedLines(raw: string)
    ensures Clean(SplitOn(Universal(raw), '\n')) == Delivered(raw)
  {
    SplitIsPieces(Universal(raw));
    UniversalDelivered(raw);
  }
}
