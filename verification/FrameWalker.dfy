/** The incremental Baichuan frame walker of `tools/analyze-bcudp-capture.ts`. */
module FrameWalker {
  import opened ByteStrings

  const MAGIC: Bytes := [0xf0, 0xde, 0xbc, 0x0a]
  const HEADER_LEN: nat := 20

  datatype Frame = Frame(cmdId: nat, body: Bytes)

  predicate MagicAt(buf: Bytes, i: nat) {
    i + 4 <= |buf| && buf[i..i + 4] == MAGIC
  }

  /** `buf.indexOf(BC_MAGIC)`, searching from `from`. */
  function IndexOfMagic(buf: Bytes, from: nat): (i: Option<nat>)
    ensures i.Some? ==> from <= i.value <= |buf| - 4 && MagicAt(buf, i.value)
    ensures i.Some? ==> forall k :: from <= k < i.value ==> !MagicAt(buf, k)
    ensures i.None? ==> forall k: nat :: from <= k ==> !MagicAt(buf, k)
    decreases |buf| - from
  {
    if from + 4 > |buf| then None
    else if MagicAt(buf, from) then Some(from)
    else IndexOfMagic(buf, from + 1)
  }

  /** The bytes a frame at the start of `b` takes. */
  function FrameLen(b: Bytes): (n: nat)
    requires |b| >= HEADER_LEN
    ensures n >= HEADER_LEN
  {
    HEADER_LEN + ReadU32(b, 8)
  }

  function FrameAt(b: Bytes): Frame
    requires |b| >= HEADER_LEN && |b| >= FrameLen(b)
  {
    Frame(ReadU32(b, 4), b[HEADER_LEN..FrameLen(b)])
  }

  /** The frames found in a buffer, and what of the buffer is kept for the next chunk. */
  function Walk(buf: Bytes): (seq<Frame>, Bytes)
    decreases |buf|
  {
    if |buf| < HEADER_LEN then ([], buf)
    else
      match IndexOfMagic(buf, 0)
      case None => ([], buf[|buf| - 3..])
      case Some(i) =>
        var b := buf[i..];
        if |b| < HEADER_LEN || |b| < FrameLen(b) then ([], b)
        else
          var (frames, rest) := Walk(b[FrameLen(b)..]);
          ([FrameAt(b)] + frames, rest)
  }

  function Frames(buf: Bytes): seq<Frame> { Walk(buf).0 }

  // ---------------------------------------------------------------- counts and samples

  datatype Tally = Tally(counts: map<nat, nat>, samples: map<nat, seq<Bytes>>)

  const NOTHING := Tally(map[], map[])

  function Note(t: Tally, f: Frame): Tally {
    var n := if f.cmdId in t.counts then t.counts[f.cmdId] else 0;
    var list := if f.cmdId in t.samples then t.samples[f.cmdId] else [];
    Tally(t.counts[f.cmdId := n + 1], if |list| < 3 then t.samples[f.cmdId := list + [f.body]] else t.samples)
  }

  function NoteAll(t: Tally, frames: seq<Frame>): Tally
    decreases |frames|
  {
    if frames == [] then t else NoteAll(Note(t, frames[0]), frames[1..])
  }

  lemma {:induction false} NoteAllConcat(t: Tally, x: seq<Frame>, y: seq<Frame>)
    ensures NoteAll(t, x + y) == NoteAll(NoteAll(t, x), y)
    decreases |x|
  {
    if x == [] {
      assert x + y == y;
    } else {
      assert (x + y)[1..] == x[1..] + y;
      NoteAllConcat(Note(t, x[0]), x[1..], y);
    }
  }

  function OfCommand(frames: seq<Frame>, cmdId: nat): seq<Bytes>
    decreases |frames|
  {
    if frames == [] then []
    else (if frames[0].cmdId == cmdId then [frames[0].body] else []) + OfCommand(frames[1..], cmdId)
  }

  /** The tally holds the number of frames of each command and the bodies of its first three. */
  lemma TallyMeaning(frames: seq<Frame>, cmdId: nat)
    ensures var t := NoteAll(NOTHING, frames); var bodies := OfCommand(frames, cmdId);
            && (cmdId in t.counts <==> bodies != [])
            && (cmdId in t.samples <==> bodies != [])
            && (bodies != [] ==>
                  t.counts[cmdId] == |bodies| && t.samples[cmdId] == bodies[..if |bodies| < 3 then |bodies| else 3])
  {
    hide NoteAll, OfCommand;
    TallyMeaningFrom(NOTHING, [], frames, cmdId);
    assert [] + OfCommand(frames, cmdId) == OfCommand(frames, cmdId);
  }

  ghost predicate Tallies(t: Tally, bodies: seq<Bytes>, cmdId: nat) {
    && (cmdId in t.counts <==> bodies != [])
    && (cmdId in t.samples <==> bodies != [])
    && (bodies != [] ==>
          t.counts[cmdId] == |bodies| && t.samples[cmdId] == bodies[..if |bodies| < 3 then |bodies| else 3])
  }

  lemma NoteTallies(t: Tally, seen: seq<Bytes>, f: Frame, cmdId: nat)
    requires Tallies(t, seen, cmdId)
    ensures Tallies(Note(t, f), if f.cmdId == cmdId then seen + [f.body] else seen, cmdId)
  {
  }

  lemma {:induction false} TallyMeaningFrom(t: Tally, seen: seq<Bytes>, frames: seq<Frame>, cmdId: nat)
    requires Tallies(t, seen, cmdId)
    ensures Tallies(NoteAll(t, frames), seen + OfCommand(frames, cmdId), cmdId)
    decreases |frames|
  {
    hide Tallies, Note;
    if frames == [] {
      assert seen + OfCommand(frames, cmdId) == seen;
    } else {
      var seen' := if frames[0].cmdId == cmdId then seen + [frames[0].body] else seen;
      NoteTallies(t, seen, frames[0], cmdId);
      TallyMeaningFrom(Note(t, frames[0]), seen', frames[1..], cmdId);
      assert seen' + OfCommand(frames[1..], cmdId) == seen + OfCommand(frames, cmdId);
    }
  }

  // ---------------------------------------------------------------- the flow object

  class FlowState {
    var buf: Bytes
    var cmdIdCounts: map<nat, nat>
    var samples: map<nat, seq<Bytes>>

    ghost function Counted(): Tally
      reads this
    {
      Tally(cmdIdCounts, samples)
    }

    constructor ()
      ensures buf == [] && Counted() == NOTHING
    {
      buf, cmdIdCounts, samples := [], map[], map[];
    }

    method WalkBaichuanFrames()
      modifies this
      ensures buf == Walk(old(buf)).1
      ensures Counted() == NoteAll(old(Counted()), Frames(old(buf)))
    {
      hide Walk, NoteAll, FromLe32, MagicAt;
      while |buf| >= HEADER_LEN
        invariant Walk(old(buf)).1 == Walk(buf).1
        invariant NoteAll(old(Counted()), Frames(old(buf))) == NoteAll(Counted(), Frames(buf))
        decreases |buf|
      {
        var found := IndexOfMagic(buf, 0);
        ghost var start := buf;
        if found == None {
          StopsWithoutMagic(start, Counted());
          buf := buf[|buf| - 3..];
          return;
        }
        if found.value > 0 {
          buf := buf[found.value..];
        }
        assert buf == start[found.value..];
        if |buf| < HEADER_LEN {
          StopsHere(start, found.value, Counted());
          return;
        }
        var cmdId := ReadU32(buf, 4);
        var bodyLen := ReadU32(buf, 8);
        var frameLen := HEADER_LEN + bodyLen;
        if |buf| < frameLen {
          StopsHere(start, found.value, Counted());
          return;
        }
        var body := buf[HEADER_LEN..HEADER_LEN + bodyLen];
        TakesFrame(start, found.value, Counted());
        cmdIdCounts := cmdIdCounts[cmdId := (if cmdId in cmdIdCounts then cmdIdCounts[cmdId] else 0) + 1];
        var list := if cmdId in samples then samples[cmdId] else [];
        if |list| < 3 {
          samples := samples[cmdId := list + [body]];
        }
        buf := buf[frameLen..];
      }
      StopsShort(buf, Counted());
    }

    method Feed(chunk: Bytes)
      modifies this
      ensures buf == Walk(old(buf) + chunk).1
      ensures Counted() == NoteAll(old(Counted()), Frames(old(buf) + chunk))
    {
      buf := buf + chunk;
      WalkBaichuanFrames();
    }
  }

  lemma StopsShort(buf: Bytes, t: Tally)
    requires |buf| < HEADER_LEN
    ensures Walk(buf) == ([], buf) && NoteAll(t, Frames(buf)) == t
  {
  }

  lemma StopsWithoutMagic(buf: Bytes, t: Tally)
    requires |buf| >= HEADER_LEN && IndexOfMagic(buf, 0) == None
    ensures Walk(buf) == ([], buf[|buf| - 3..]) && NoteAll(t, Frames(buf)) == t
  {
  }

  lemma StopsHere(buf: Bytes, i: nat, t: Tally)
    requires |buf| >= HEADER_LEN && IndexOfMagic(buf, 0) == Some(i)
    requires |buf[i..]| < HEADER_LEN || |buf[i..]| < FrameLen(buf[i..])
    ensures Walk(buf) == ([], buf[i..]) && NoteAll(t, Frames(buf)) == t
  {
  }

  lemma TakesFrame(buf: Bytes, i: nat, t: Tally)
    requires |buf| >= HEADER_LEN && IndexOfMagic(buf, 0) == Some(i)
    requires |buf[i..]| >= HEADER_LEN && |buf[i..]| >= FrameLen(buf[i..])
    ensures var b := buf[i..]; var after := b[FrameLen(b)..];
            && Walk(buf).1 == Walk(after).1
            && NoteAll(t, Frames(buf)) == NoteAll(Note(t, FrameAt(b)), Frames(after))
  {
    hide FrameAt, FrameLen;
    var b := buf[i..];
    var after := b[FrameLen(b)..];
    assert Frames(buf) == [FrameAt(b)] + Frames(after);
    assert ([FrameAt(b)] + Frames(after))[1..] == Frames(after);
  }

  // ---------------------------------------------------------------- chunking does not matter

  lemma FirstMagicUnique(buf: Bytes, i: nat)
    requires MagicAt(buf, i) && forall k :: 0 <= k < i ==> !MagicAt(buf, k)
    ensures IndexOfMagic(buf, 0) == Some(i)
  {
  }

  lemma MagicShift(buf: Bytes, k: nat, i: nat)
    requires k <= |buf|
    ensures MagicAt(buf[k..], i) <==> MagicAt(buf, k + i)
  {
    if k + i + 4 <= |buf| {
      assert buf[k..][i..i + 4] == buf[k + i..k + i + 4];
    }
  }

  lemma MagicInPrefix(x: Bytes, y: Bytes, i: nat)
    requires i + 4 <= |x|
    ensures MagicAt(x + y, i) <==> MagicAt(x, i)
  {
    assert (x + y)[i..i + 4] == x[i..i + 4];
  }

  /** What is found at the first magic: nothing yet, or a frame and the rest. */
  function FramesFrom(b: Bytes): seq<Frame> {
    if |b| < HEADER_LEN || |b| < FrameLen(b) then [] else [FrameAt(b)] + Frames(b[FrameLen(b)..])
  }

  lemma FramesAtMagic(buf: Bytes, i: nat)
    requires i <= |buf| && MagicAt(buf, i) && forall k :: 0 <= k < i ==> !MagicAt(buf, k)
    ensures Frames(buf) == FramesFrom(buf[i..])
  {
    FirstMagicUnique(buf, i);
  }

  lemma NoMagicNoFrames(buf: Bytes)
    requires forall k: nat :: !MagicAt(buf, k)
    ensures Frames(buf) == []
  {
  }

  /** Bytes before the first possible start of a magic do not matter. */
  lemma DropGarbage(buf: Bytes, k: nat)
    requires k <= |buf| && forall j :: 0 <= j < k ==> !MagicAt(buf, j)
    ensures Frames(buf) == Frames(buf[k..])
  {
    hide Walk, Frames, FramesFrom, MagicAt;
    forall i: nat ensures MagicAt(buf[k..], i) <==> MagicAt(buf, k + i) { MagicShift(buf, k, i); }
    match IndexOfMagic(buf[k..], 0)
    case None =>
      forall j: nat ensures !MagicAt(buf, j) {
        if j >= k { assert !MagicAt(buf[k..], j - k); }
      }
      NoMagicNoFrames(buf);
      NoMagicNoFrames(buf[k..]);
    case Some(i) =>
      MagicFits(buf, k + i);
      forall j | 0 <= j < k + i ensures !MagicAt(buf, j) {
        if j >= k { assert !MagicAt(buf[k..], j - k); }
      }
      FramesAtMagic(buf, k + i);
      FramesAtMagic(buf[k..], i);
      assert buf[k..][i..] == buf[k + i..];
  }

  lemma MagicFits(buf: Bytes, i: nat)
    requires MagicAt(buf, i)
    ensures i + 4 <= |buf|
  {
  }

  /** A buffer without a magic can only contribute its last three bytes to a later one. */
  lemma TailSuffices(x: Bytes, y: Bytes)
    requires |x| >= 3 && forall k: nat :: !MagicAt(x, k)
    ensures Frames(x + y) == Frames(x[|x| - 3..] + y)
  {
    hide Frames, MagicAt;
    forall j | 0 <= j < |x| - 3 ensures !MagicAt(x + y, j) { MagicInPrefix(x, y, j); }
    DropGarbage(x + y, |x| - 3);
    assert (x + y)[|x| - 3..] == x[|x| - 3..] + y;
  }

  lemma SameHeader(b: Bytes, y: Bytes)
    requires |b| >= HEADER_LEN
    ensures FrameLen(b + y) == FrameLen(b)
    ensures |b| >= FrameLen(b) ==> FrameAt(b + y) == FrameAt(b)
    ensures |b| >= FrameLen(b) ==> (b + y)[FrameLen(b)..] == b[FrameLen(b)..] + y
  {
    hide FromLe32;
    assert (b + y)[8..12] == b[8..12] && (b + y)[4..8] == b[4..8];
  }

  /** Walking a longer buffer finds the frames of the first part, then those of what was kept plus
      the second part. */
  lemma {:induction false} WalkSplit(x: Bytes, y: Bytes)
    ensures Frames(x + y) == Frames(x) + Frames(Walk(x).1 + y)
    decreases |x|
  {
    hide MagicAt, FrameLen, FrameAt;
    if |x| < HEADER_LEN {
      assert Frames(x) == [] && Walk(x).1 == x;
    } else {
      match IndexOfMagic(x, 0)
      case None => TailSuffices(x, y);
      case Some(i) =>
        var b := x[i..];
        FirstMagicStays(x, y, i);
        assert (x + y)[i..] == b + y;
        if |b| < HEADER_LEN || |b| < FrameLen(b) {
          DropGarbage(x + y, i);
        } else {
          SameHeader(b, y);
          FramesAtMagic(x + y, i);
          WalkSplit(b[FrameLen(b)..], y);
          WholeFrame(x, i);
        }
    }
  }

  lemma FirstMagicStays(x: Bytes, y: Bytes, i: nat)
    requires IndexOfMagic(x, 0) == Some(i)
    ensures i + 4 <= |x| && MagicAt(x + y, i) && forall k :: 0 <= k < i ==> !MagicAt(x + y, k)
  {
    hide MagicAt;
    MagicFits(x, i);
    forall k | 0 <= k <= i ensures MagicAt(x + y, k) <==> MagicAt(x, k) { MagicInPrefix(x, y, k); }
  }

  lemma WholeFrame(x: Bytes, i: nat)
    requires |x| >= HEADER_LEN && IndexOfMagic(x, 0) == Some(i)
    requires |x[i..]| >= HEADER_LEN && |x[i..]| >= FrameLen(x[i..])
    ensures var b := x[i..];
            && Frames(x) == [FrameAt(b)] + Frames(b[FrameLen(b)..])
            && Walk(x).1 == Walk(b[FrameLen(b)..]).1
  {
  }

  function Joined(chunks: seq<Bytes>): Bytes
    decreases |chunks|
  {
    if chunks == [] then [] else Joined(chunks[..|chunks| - 1]) + chunks[|chunks| - 1]
  }

  /** The kept bytes after feeding chunk after chunk to a new flow. */
  function Kept(chunks: seq<Bytes>): Bytes
    decreases |chunks|
  {
    if chunks == [] then [] else Walk(Kept(chunks[..|chunks| - 1]) + chunks[|chunks| - 1]).1
  }

  /** The frames reported over all those calls. */
  function Reported(chunks: seq<Bytes>): seq<Frame>
    decreases |chunks|
  {
    if chunks == [] then []
    else Reported(chunks[..|chunks| - 1]) + Frames(Kept(chunks[..|chunks| - 1]) + chunks[|chunks| - 1])
  }

  lemma {:induction false} ChunkedThenMore(chunks: seq<Bytes>, more: Bytes)
    ensures Frames(Joined(chunks) + more) == Reported(chunks) + Frames(Kept(chunks) + more)
    decreases |chunks|
  {
    hide Walk, Frames;
    if chunks != [] {
      var before, last := chunks[..|chunks| - 1], chunks[|chunks| - 1];
      ChunkedThenMore(before, last + more);
      assert Joined(chunks) + more == Joined(before) + (last + more);
      assert Kept(before) + (last + more) == (Kept(before) + last) + more;
      WalkSplit(Kept(before) + last, more);
    }
  }

  /** However a stream is cut, the frames reported are those of one walk over all of it. */
  lemma ChunkingDoesNotMatter(chunks: seq<Bytes>)
    ensures Reported(chunks) == Frames(Joined(chunks))
  {
    hide Walk, Frames;
    ChunkedThenMore(chunks, []);
    assert Joined(chunks) + [] == Joined(chunks) && Kept(chunks) + [] == Kept(chunks);
    NothingMoreInKept(chunks);
  }

  lemma NothingMoreInKept(chunks: seq<Bytes>)
    ensures Frames(Kept(chunks)) == []
  {
    if chunks != [] {
      RestHasNoFrames(Kept(chunks[..|chunks| - 1]) + chunks[|chunks| - 1]);
    }
  }

  lemma {:induction false} RestHasNoFrames(buf: Bytes)
    ensures Frames(Walk(buf).1) == []
    decreases |buf|
  {
    hide FrameLen, FrameAt;
    if |buf| >= HEADER_LEN {
      match IndexOfMagic(buf, 0)
      case None =>
      case Some(i) =>
        var b := buf[i..];
        if |b| < HEADER_LEN || |b| < FrameLen(b) {
          MagicShift(buf, i, 0);
          if |b| >= HEADER_LEN { FramesAtMagic(b, 0); assert b[0..] == b; }
        } else {
          RestHasNoFrames(b[FrameLen(b)..]);
        }
    }
  }

  /** The whole capture loop: one flow fed chunk by chunk counts and samples exactly what a single
      walk over the joined stream would. */
  method FeedAll(chunks: seq<Bytes>) returns (flow: FlowState)
    ensures fresh(flow)
    ensures flow.Counted() == NoteAll(NOTHING, Frames(Joined(chunks)))
  {
    flow := new FlowState();
    for n := 0 to |chunks|
      invariant fresh(flow)
      invariant flow.buf == Kept(chunks[..n])
      invariant flow.Counted() == NoteAll(NOTHING, Reported(chunks[..n]))
    {
      assert chunks[..n + 1][..n] == chunks[..n];
      NoteAllConcat(NOTHING, Reported(chunks[..n]), Frames(Kept(chunks[..n]) + chunks[n]));
      flow.Feed(chunks[n]);
    }
    assert chunks[..|chunks|] == chunks;
    ChunkingDoesNotMatter(chunks);
  }
}
