/** The pull-progress tracker `DockerPullProgress` and the buffer loop of `_docker_pull` in `swe_images.py`.
    The clock and the download speed are not part of the state. */
module DockerPull {
  import opened Wrappers
  import opened PyText
  import opened StreamLines
  import opened Dicts

  // ---------------------------------------------------------------- one line

  /** The text functions that a line is read with: lower-casing, and the size pair `a / b` of a progress
      bar, whose two numbers may fail to parse. */
  datatype LineOps = LineOps(lower: string -> string, sizes: string -> Option<(Option<nat>, Option<nat>)>)

  predicate IsHex(c: char) {
    '0' <= c <= '9' || 'a' <= c <= 'f' || 'A' <= c <= 'F'
  }

  function HexSpan(s: string): (r: nat)
    ensures r <= |s|
  {
    if s == "" || !IsHex(s[0]) then 0 else 1 + HexSpan(s[1..])
  }

  /** `^([0-9a-f]{8,64}):\s*(.+?)\s*$` on a stripped line: the layer id and the text behind it. */
  function LayerLine(line: string): Option<(string, string)> {
    var h := HexSpan(line);
    if 8 <= h <= 64 && h < |line| && line[h] == ':' && Strip(line[h + 1..]) != ""
    then Some((line[..h], Strip(line[h + 1..])))
    else None
  }

  function RStripColons(s: string): string {
    if s != "" && s[|s| - 1] == ':' then RStripColons(s[..|s| - 1]) else s
  }

  /** The status before the progress bar, in lower case. */
  function StatusOf(ops: LineOps, rest: string): string {
    ops.lower(RStripColons(Strip(SplitOn(rest, '[')[0])))
  }

  predicate Says(status: string, part: string) {
    Find(status, part).Some?
  }

  // ---------------------------------------------------------------- the tracked state

  datatype Tracker = Tracker(layers: map<string, string>, dlDone: map<string, nat>, dlTotal: map<string, nat>,
                             exDone: map<string, nat>, exTotal: map<string, nat>, lastLine: string)

  const START: Tracker := Tracker(map[], map[], map[], map[], map[], "")

  /** The sizes of a progress bar, when both numbers parse. */
  function SizePair(ops: LineOps, rest: string): Option<(nat, nat)> {
    match ops.sizes(rest)
    case Some((Some(a), Some(b))) => Some((a, b))
    case _ => None
  }

  /** Recording the sizes of a progress bar. */
  function WithSizes(t: Tracker, lid: string, status: string, pair: Option<(nat, nat)>): Tracker {
    if pair == None then t
    else if Says(status, "download") then
      t.(dlDone := t.dlDone[lid := pair.value.0], dlTotal := t.dlTotal[lid := pair.value.1])
    else if Says(status, "extract") then
      t.(exDone := t.exDone[lid := pair.value.0], exTotal := t.exTotal[lid := pair.value.1])
    else t
  }

  function Finish(done: map<string, nat>, total: map<string, nat>, lid: string): map<string, nat> {
    if lid in total then done[lid := total[lid]] else done
  }

  /** What a completion message does: the bytes done become the total, where one is known. */
  function Completed(t: Tracker, lid: string, status: string): Tracker {
    var u := if Says(status, "download complete") || Says(status, "already exists")
             then t.(dlDone := Finish(t.dlDone, t.dlTotal, lid)) else t;
    if Says(status, "pull complete")
    then u.(dlDone := Finish(u.dlDone, u.dlTotal, lid), exDone := Finish(u.exDone, u.exTotal, lid)) else u
  }

  /** The state after one layer line. */
  function WithLayer(t: Tracker, lid: string, status: string, pair: Option<(nat, nat)>): Tracker {
    Completed(WithSizes(t.(layers := t.layers[lid := status]), lid, status, pair), lid, status)
  }

  function FeedOne(ops: LineOps, t: Tracker, line: string): Tracker {
    match LayerLine(line)
    case None => t
    case Some((id, rest)) => WithLayer(t, ops.lower(id), StatusOf(ops, rest), SizePair(ops, rest))
  }

  /** Whether a line counts as a change: a new status or a progress bar. */
  predicate Changes(ops: LineOps, t: Tracker, line: string) {
    match LayerLine(line)
    case None => false
    case Some((id, rest)) =>
      var lid := ops.lower(id);
      !(lid in t.layers && t.layers[lid] == StatusOf(ops, rest)) || ops.sizes(rest).Some?
  }

  function FeedLine(ops: LineOps, t: Tracker, line: string): Tracker {
    FeedOne(ops, t.(lastLine := if |line| <= 160 then line else line[..160]), line)
  }

  function Fold(ops: LineOps, t: Tracker, lines: seq<string>): Tracker
    decreases |lines|
  {
    if lines == [] then t else Fold(ops, FeedLine(ops, t, lines[0]), lines[1..])
  }

  predicate AnyChange(ops: LineOps, t: Tracker, lines: seq<string>)
    decreases |lines|
  {
    lines != [] && (Changes(ops, t, lines[0]) || AnyChange(ops, FeedLine(ops, t, lines[0]), lines[1..]))
  }

  // ---------------------------------------------------------------- the class

  class DockerPullProgress {
    const ops: LineOps
    var layers: map<string, string>
    var dlDone: map<string, nat>
    var dlTotal: map<string, nat>
    var exDone: map<string, nat>
    var exTotal: map<string, nat>
    var lastLine: string

    function State(): Tracker
      reads this
    {
      Tracker(layers, dlDone, dlTotal, exDone, exTotal, lastLine)
    }

    constructor (ops: LineOps)
      ensures State() == START && this.ops == ops
    {
      this.ops := ops;
      layers, dlDone, dlTotal, exDone, exTotal, lastLine := map[], map[], map[], map[], map[], "";
    }

    method RecordSizes(lid: string, status: string, pair: Option<(nat, nat)>)
      modifies this
      ensures State() == WithSizes(old(State()), lid, status, pair)
    {
      hide Says;
      if pair.Some? {
        if Says(status, "download") {
          dlDone, dlTotal := dlDone[lid := pair.value.0], dlTotal[lid := pair.value.1];
        } else if Says(status, "extract") {
          exDone, exTotal := exDone[lid := pair.value.0], exTotal[lid := pair.value.1];
        }
      }
    }

    method Complete(lid: string, status: string)
      modifies this
      ensures State() == Completed(old(State()), lid, status)
    {
      hide Says;
      if Says(status, "download complete") || Says(status, "already exists") {
        if lid in dlTotal {
          dlDone := dlDone[lid := dlTotal[lid]];
        }
      }
      if Says(status, "pull complete") {
        if lid in dlTotal {
          dlDone := dlDone[lid := dlTotal[lid]];
        }
        if lid in exTotal {
          exDone := exDone[lid := exTotal[lid]];
        }
      }
    }

    /** `_feed_one` */
    method FeedLayer(line: string) returns (changed: bool)
      modifies this
      ensures State() == FeedOne(ops, old(State()), line)
      ensures changed == Changes(ops, old(State()), line)
    {
      hide LayerLine, StatusOf, WithSizes, Completed;
      var m := LayerLine(line);
      if m == None {
        return false;
      }
      var lid, rest := ops.lower(m.value.0), m.value.1;
      var status := StatusOf(ops, rest);
      changed := !(lid in layers && layers[lid] == status) || ops.sizes(rest).Some?;
      layers := layers[lid := status];
      RecordSizes(lid, status, SizePair(ops, rest));
      Complete(lid, status);
    }

    /** `feed`: one logical line, which may itself hold returns. */
    method Feed(raw: string) returns (changed: bool)
      modifies this
      ensures State() == Fold(ops, old(State()), Delivered(raw))
      ensures changed == AnyChange(ops, old(State()), Delivered(raw))
    {
      hide FeedOne, Changes, Strip, Delivered, SplitOn;
      ghost var start := State();
      var chunks := SplitOn(Universal(raw), '\n');
      FeedLines(raw);
      changed := false;
      assert chunks[0..] == chunks;
      for i := 0 to |chunks|
        invariant Fold(ops, State(), Clean(chunks[i..])) == Fold(ops, start, Delivered(raw))
        invariant (changed || AnyChange(ops, State(), Clean(chunks[i..]))) == AnyChange(ops, start, Delivered(raw))
      {
        NextPiece(chunks, i);
        var line := Strip(chunks[i]);
        if line == "" {
          continue;
        }
        ghost var more := Clean(chunks[i + 1..]);
        assert ([line] + more)[1..] == more;
        SameChange(ops, State(), line);
        lastLine := if |line| <= 160 then line else line[..160];
        var changes := FeedLayer(line);
        if changes {
          changed := true;
        }
      }
      assert chunks[|chunks|..] == [];
    }
  }

  lemma NextPiece(chunks: seq<string>, i: nat)
    requires i < |chunks|
    ensures var line, more := Strip(chunks[i]), Clean(chunks[i + 1..]);
            Clean(chunks[i..]) == if line == "" then more else [line] + more
  {}

  lemma SameChange(ops: LineOps, t: Tracker, line: string)
    ensures forall l :: Changes(ops, t.(lastLine := l), line) == Changes(ops, t, line)
  {}

  // ---------------------------------------------------------------- the pull loop

  lemma {:induction false} FoldAppend(ops: LineOps, t: Tracker, a: seq<string>, b: seq<string>)
    ensures Fold(ops, t, a + b) == Fold(ops, Fold(ops, t, a), b)
    decreases |a|
  {
    hide FeedLine;
    if a == [] {
      assert a + b == b;
    } else {
      assert (a + b)[1..] == a[1..] + b;
      FoldAppend(ops, FeedLine(ops, t, a[0]), a[1..], b);
    }
  }

  lemma LineWithCut(buf: string, rest: string)
    requires NextCut(buf) >= 0
    ensures var i := NextCut(buf);
            Delivered(buf + rest) == Delivered(buf[..i + 1]) + Delivered(buf[i + 1..] + rest)
  {
    hide NextCut, Delivered;
    var i := NextCut(buf);
    CutBuffer(buf, rest);
    assert buf[..i + 1] == buf[..i] + [buf[i]] + "";
    DeliveredAtCut(buf[..i], buf[i], "");
    NothingDelivered();
  }

  lemma NothingDelivered()
    ensures Delivered("") == []
  {}

  /** The inner loop of `_docker_pull`: feed every line that the buffer holds. */
  method FeedBuffer(tracker: DockerPullProgress, buf0: string, ghost rest: string) returns (buf: string)
    modifies tracker
    ensures CutFree(buf)
    ensures Fold(tracker.ops, tracker.State(), Delivered(buf + rest)) ==
            Fold(tracker.ops, old(tracker.State()), Delivered(buf0 + rest))
  {
    hide NextCut, Delivered, Fold;
    buf := buf0;
    while true
      invariant Fold(tracker.ops, tracker.State(), Delivered(buf + rest)) ==
                Fold(tracker.ops, old(tracker.State()), Delivered(buf0 + rest))
      decreases |buf|
    {
      var i := NextCut(buf);
      if i < 0 {
        break;
      }
      LineWithCut(buf, rest);
      var line := buf[..i + 1];
      buf := buf[i + 1..];
      FoldAppend(tracker.ops, tracker.State(), Delivered(line), Delivered(buf + rest));
      var changed := tracker.Feed(line);
    }
  }

  /** `_docker_pull`: the tracker ends in the state that the lines of the whole stream give, however the
      stream is cut into chunks. */
  method Pull(ops: LineOps, chunks: seq<string>) returns (tracker: DockerPullProgress)
    ensures fresh(tracker) && tracker.ops == ops
    ensures tracker.State() == Fold(ops, START, Delivered(Received(chunks)))
  {
    hide Delivered, Fold, Strip;
    tracker := new DockerPullProgress(ops);
    var buf := "";
    var i := 0;
    assert chunks[0..] == chunks;
    assert buf + Received(chunks) == Received(chunks);
    while i < |chunks| && chunks[i] != ""
      invariant i <= |chunks| && fresh(tracker) && tracker.ops == ops
      invariant CutFree(buf)
      invariant Fold(ops, tracker.State(), Delivered(buf + Received(chunks[i..]))) ==
                Fold(ops, START, Delivered(Received(chunks)))
    {
      assert chunks[i..][1..] == chunks[i + 1..];
      var rest := Received(chunks[i + 1..]);
      assert buf + Received(chunks[i..]) == buf + chunks[i] + rest;
      buf := FeedBuffer(tracker, buf + chunks[i], rest);
      i := i + 1;
    }
    assert Received(chunks[i..]) == "";
    assert buf + "" == buf;
    if Strip(buf) != "" {
      var changed := tracker.Feed(buf);
    } else {
      BlankDelivers(ops, tracker.State(), buf);
    }
  }

  lemma BlankDelivers(ops: LineOps, t: Tracker, buf: string)
    requires CutFree(buf) && Strip(buf) == ""
    ensures Fold(ops, t, Delivered(buf)) == t
  {
    DeliveredWhole(buf);
  }

  /** Chunk invariance: two ways of cutting the same stream give the same tracker state. */
  method SameStreamSameState(ops: LineOps, chunks: seq<string>, chunks': seq<string>)
    returns (a: DockerPullProgress, b: DockerPullProgress)
    requires Received(chunks) == Received(chunks')
    ensures fresh(a) && fresh(b) && a.State() == b.State()
  {
    a := Pull(ops, chunks);
    b := Pull(ops, chunks');
  }

  // ---------------------------------------------------------------- what every run keeps

  predicate LayerDone(status: string) {
    Says(status, "pull complete") || Says(status, "already exists")
  }

  predicate LayerDownloaded(status: string) {
    Says(status, "download complete") || LayerDone(status) || Says(status, "extract")
  }

  /** A finished layer has all its bytes, where their number is known. */
  predicate HasAllBytes(t: Tracker, lid: string)
    requires lid in t.layers && t.dlDone.Keys == t.dlTotal.Keys && t.exDone.Keys == t.exTotal.Keys
  {
    var status := t.layers[lid];
    && (lid in t.dlTotal && (LayerDone(status) || Says(status, "download complete")) ==>
          t.dlDone[lid] == t.dlTotal[lid])
    && (lid in t.exTotal && Says(status, "pull complete") ==> t.exDone[lid] == t.exTotal[lid])
  }

  /** Byte counts come in pairs, and only for known layers. */
  predicate Paired(t: Tracker) {
    t.dlDone.Keys == t.dlTotal.Keys <= t.layers.Keys && t.exDone.Keys == t.exTotal.Keys <= t.layers.Keys
  }

  predicate Consistent(t: Tracker) {
    Paired(t) && forall lid :: lid in t.layers ==> HasAllBytes(t, lid)
  }

  lemma SizesKeep(t: Tracker, lid: string, status: string, pair: Option<(nat, nat)>)
    requires Paired(t) && lid in t.layers
    ensures var u := WithSizes(t, lid, status, pair);
            && Paired(u) && u.layers == t.layers
            && forall l :: l in t.layers && l != lid && HasAllBytes(t, l) ==> HasAllBytes(u, l)
  {}

  lemma CompletedHasAll(t: Tracker, lid: string, status: string)
    requires Paired(t) && lid in t.layers && t.layers[lid] == status
    ensures var u := Completed(t, lid, status);
            && Paired(u) && u.layers == t.layers
            && HasAllBytes(u, lid)
            && forall l :: l in t.layers && l != lid && HasAllBytes(t, l) ==> HasAllBytes(u, l)
  {}

  lemma LayerKeeps(t: Tracker, lid: string, status: string, pair: Option<(nat, nat)>)
    requires Consistent(t)
    ensures Consistent(WithLayer(t, lid, status, pair))
  {
    hide Says, Completed, WithSizes, HasAllBytes;
    var u := t.(layers := t.layers[lid := status]);
    NewStatusKeeps(t, lid, status);
    SizesKeep(u, lid, status, pair);
    CompletedHasAll(WithSizes(u, lid, status, pair), lid, status);
  }

  lemma NewStatusKeeps(t: Tracker, lid: string, status: string)
    requires Paired(t)
    ensures var u := t.(layers := t.layers[lid := status]);
            Paired(u) && forall l :: l in t.layers && l != lid && HasAllBytes(t, l) ==> HasAllBytes(u, l)
  {}

  lemma LineKeeps(ops: LineOps, t: Tracker, line: string)
    requires Consistent(t)
    ensures Consistent(FeedLine(ops, t, line))
  {
    hide Says, WithLayer, LayerLine;
    var u := t.(lastLine := if |line| <= 160 then line else line[..160]);
    match LayerLine(line)
    case None =>
    case Some((id, rest)) => LayerKeeps(u, ops.lower(id), StatusOf(ops, rest), SizePair(ops, rest));
  }

  /** Every state that a run can reach is consistent. */
  lemma {:induction false} RunKeeps(ops: LineOps, t: Tracker, lines: seq<string>)
    requires Consistent(t)
    ensures Consistent(Fold(ops, t, lines))
    decreases |lines|
  {
    hide FeedLine, Consistent;
    if lines == [] {
    } else {
      LineKeeps(ops, t, lines[0]);
      RunKeeps(ops, FeedLine(ops, t, lines[0]), lines[1..]);
    }
  }

  function DoneLayers(t: Tracker): set<string> {
    set lid | lid in t.layers && LayerDone(t.layers[lid])
  }

  function DownloadedLayers(t: Tracker): set<string> {
    set lid | lid in t.layers && LayerDownloaded(t.layers[lid])
  }

  /** The counts of a snapshot after any stream: done <= downloaded <= all layers, and when every layer is
      done all known bytes are downloaded. */
  lemma SnapshotCounts(ops: LineOps, lines: seq<string>)
    ensures var t := Fold(ops, START, lines);
            && DoneLayers(t) <= DownloadedLayers(t) <= t.layers.Keys
            && |DoneLayers(t)| <= |DownloadedLayers(t)| <= |t.layers|
            && (|DoneLayers(t)| == |t.layers| ==> t.dlDone == t.dlTotal)
  {
    hide Says, Fold;
    RunKeeps(ops, START, lines);
    var t := Fold(ops, START, lines);
    SubsetCount(DoneLayers(t), DownloadedLayers(t));
    SubsetCount(DownloadedLayers(t), t.layers.Keys);
    if |DoneLayers(t)| == |t.layers| {
      FullSubset(DoneLayers(t), t.layers.Keys);
    }
  }

  lemma FullSubset<T>(a: set<T>, b: set<T>)
    requires a <= b && |a| == |b|
    ensures a == b
  {
    assert |b - a| == |b| - |a|;
  }
}
