/** What `DockerPullProgress` in `swe_images.py` reads from the text of a line: the layer, its status and its byte
    counts, and which lines count as a change. */
module DockerLines {
  import opened Wrappers
  import opened PyText
  import opened PyTextLaws
  import opened DockerPull

  // ---------------------------------------------------------------- layer lines

  predicate IsLayerId(id: string) {
    8 <= |id| <= 64 && forall i :: 0 <= i < |id| ==> id[i] in "0123456789abcdefABCDEF"
  }

  lemma HexExact(c: char)
    ensures IsHex(c) <==> c in "0123456789abcdefABCDEF"
  {}

  lemma {:induction false} HexSpanIs(s: string, k: nat)
    requires k <= |s| && (forall i :: 0 <= i < k ==> IsHex(s[i])) && (k < |s| ==> !IsHex(s[k]))
    ensures HexSpan(s) == k
  {
    if k == 0 {
    } else {
      HexSpanIs(s[1..], k - 1);
    }
  }

  lemma {:induction false} HexSpanHex(s: string)
    ensures forall i :: 0 <= i < HexSpan(s) ==> IsHex(s[i])
  {
    if s == "" || !IsHex(s[0]) {
    } else {
      HexSpanHex(s[1..]);
      assert forall i :: 1 <= i < HexSpan(s) ==> s[i] == s[1..][i - 1];
    }
  }

  /** A layer line is a layer id of 8 to 64 hexadecimal digits, a colon, and text that is not blank. */
  lemma LayerLineExact(line: string, id: string, rest: string)
    ensures LayerLine(line) == Some((id, rest)) <==>
            IsLayerId(id) && rest != "" && exists tail :: line == id + ":" + tail && rest == Strip(tail)
  {
    hide Strip, HexSpan;
    if LayerLine(line) == Some((id, rest)) {
      HexSpanHex(line);
      forall i | 0 <= i < |id|
        ensures id[i] in "0123456789abcdefABCDEF"
      {
        HexExact(line[i]);
      }
      assert line == id + ":" + line[|id| + 1..];
    }
    if IsLayerId(id) && rest != "" {
      if tail :| line == id + ":" + tail && rest == Strip(tail) {
        forall i | 0 <= i < |id|
          ensures IsHex(line[i])
        {
          HexExact(id[i]);
        }
        HexSpanIs(line, |id|);
        assert line[..|id|] == id && line[|id| + 1..] == tail;
      }
    }
  }

  // ---------------------------------------------------------------- status

  function Colons(n: nat): (r: string)
    ensures |r| == n && forall i :: 0 <= i < n ==> r[i] == ':'
  {
    seq(n, i => ':')
  }

  lemma {:induction false} ColonsDropped(s: string, n: nat)
    requires s == "" || s[|s| - 1] != ':'
    ensures RStripColons(s + Colons(n)) == s
  {
    var t := s + Colons(n);
    if n > 0 {
      ColonsDropped(s, n - 1);
      assert t[..|t| - 1] == s + Colons(n - 1);
    } else {
      assert t == s;
    }
  }

  /** The status is the text up to the progress bar, without white space around it and colons behind it, in lower
      case. */
  lemma StatusExact(ops: LineOps, text: string, bar: string, name: string, colons: nat)
    requires '[' !in text && Strip(text) == name + Colons(colons) && (name == "" || name[|name| - 1] != ':')
    ensures StatusOf(ops, text) == ops.lower(name) && StatusOf(ops, text + "[" + bar) == ops.lower(name)
  {
    hide Strip, SplitOn, RStripColons;
    OnePart(text, '[');
    SplitAtSep(text, bar, '[');
    assert text + "[" + bar == text + ['['] + bar;
    ColonsDropped(name, colons);
  }

  // ---------------------------------------------------------------- byte counts

  lemma SaysMeans(status: string, part: string)
    ensures Says(status, part) <==> Occurs(part, status)
  {
    FindOccurs(status, part);
  }

  /** No message that completes a step for a layer. */
  predicate InProgress(status: string) {
    !Occurs("download complete", status) && !Occurs("already exists", status) && !Occurs("pull complete", status)
  }

  function LastLine(line: string): string {
    if |line| <= 160 then line else line[..160]
  }

  /** While a layer downloads, or is extracted, the two numbers of its progress bar are the bytes done and the bytes in
      all. The other counts and the other layers stay as they are. */
  lemma ProgressRead(ops: LineOps, t: Tracker, line: string, id: string, rest: string, done: nat, total: nat)
    requires LayerLine(line) == Some((id, rest)) && ops.sizes(rest) == Some((Some(done), Some(total)))
    requires InProgress(StatusOf(ops, rest))
    ensures var lid, status := ops.lower(id), StatusOf(ops, rest);
            var seen := t.(layers := t.layers[lid := status], lastLine := LastLine(line));
            FeedLine(ops, t, line) ==
            if Occurs("download", status) then
              seen.(dlDone := t.dlDone[lid := done], dlTotal := t.dlTotal[lid := total])
            else if Occurs("extract", status) then
              seen.(exDone := t.exDone[lid := done], exTotal := t.exTotal[lid := total])
            else seen
    ensures Changes(ops, t, line)
  {
    hide LayerLine, StatusOf, Says, Occurs;
    var status := StatusOf(ops, rest);
    SaysMeans(status, "download");
    SaysMeans(status, "extract");
    SaysMeans(status, "download complete");
    SaysMeans(status, "already exists");
    SaysMeans(status, "pull complete");
  }

  function Full(done: map<string, nat>, total: map<string, nat>, lid: string): map<string, nat> {
    if lid in total then done[lid := total[lid]] else done
  }

  /** A line without two byte counts that parse. After a completion message the layer has all its bytes, where their
      number is known. Only a completed pull has them extracted as well. */
  lemma CompletionRead(ops: LineOps, t: Tracker, line: string, id: string, rest: string)
    requires LayerLine(line) == Some((id, rest))
    requires ops.sizes(rest).Some? ==> ops.sizes(rest).value.0 == None || ops.sizes(rest).value.1 == None
    ensures var lid, status := ops.lower(id), StatusOf(ops, rest);
            var u := FeedLine(ops, t, line);
            && u.layers == t.layers[lid := status] && u.lastLine == LastLine(line)
            && u.dlTotal == t.dlTotal && u.exTotal == t.exTotal
            && u.dlDone == (if InProgress(status) then t.dlDone else Full(t.dlDone, t.dlTotal, lid))
            && u.exDone == (if Occurs("pull complete", status) then Full(t.exDone, t.exTotal, lid) else t.exDone)
            && (Changes(ops, t, line) <==> !(lid in t.layers && t.layers[lid] == status) || ops.sizes(rest).Some?)
  {
    hide LayerLine, StatusOf, Says, Occurs;
    var lid, status := ops.lower(id), StatusOf(ops, rest);
    SaysMeans(status, "download complete");
    SaysMeans(status, "already exists");
    SaysMeans(status, "pull complete");
    var full := Full(t.dlDone, t.dlTotal, lid);
    assert lid in t.dlTotal ==> full[lid := t.dlTotal[lid]] == full;
  }

  /** In a state that a run can reach, a line that counts as no change changes nothing but the last line. */
  lemma NoChangeKeeps(ops: LineOps, t: Tracker, line: string)
    requires Consistent(t) && !Changes(ops, t, line)
    ensures FeedLine(ops, t, line) == t.(lastLine := LastLine(line))
  {
    hide LayerLine, StatusOf, Says;
    match LayerLine(line)
    case None =>
    case Some((id, rest)) =>
      var lid := ops.lower(id);
      assert t.layers[lid := t.layers[lid]] == t.layers;
      assert HasAllBytes(t, lid);
      SameBytes(t.dlDone, t.dlTotal, lid);
      SameBytes(t.exDone, t.exTotal, lid);
  }

  lemma SameBytes(done: map<string, nat>, total: map<string, nat>, lid: string)
    requires done.Keys == total.Keys
    ensures lid in total && done[lid] == total[lid] ==> Finish(done, total, lid) == done
    ensures lid !in total ==> Finish(done, total, lid) == done
  {}

  // ---------------------------------------------------------------- counts of a snapshot

  /** A layer is done when its pull is complete or it was there already, and downloaded when it is done, its download is
      complete or it is being extracted. */
  lemma SnapshotExact(t: Tracker, lid: string)
    requires lid in t.layers
    ensures var s := t.layers[lid];
            && (lid in DoneLayers(t) <==> Occurs("pull complete", s) || Occurs("already exists", s))
            && (lid in DownloadedLayers(t) <==> !InProgress(s) || Occurs("extract", s))
  {
    hide Says, Occurs;
    var s := t.layers[lid];
    SaysMeans(s, "pull complete");
    SaysMeans(s, "already exists");
    SaysMeans(s, "download complete");
    SaysMeans(s, "extract");
  }
}
