/** The frame walker seen from the sending side: what a stream of Baichuan frames is reported as. */
module FrameStreams {
  import opened ByteStrings
  import opened FrameWalker

  /** A frame on the wire: bytes that are skipped before it, its command, the eight header bytes that are
      not looked at, its body. */
  datatype Sent = Sent(gap: Bytes, cmdId: nat, unread: Bytes, body: Bytes)

  function Wire(x: Sent): Bytes {
    [0xf0, 0xde, 0xbc, 0x0a] + Le32(x.cmdId) + Le32(|x.body|) + x.unread + x.body
  }

  function Encode(x: Sent): Bytes { x.gap + Wire(x) }

  function EncodeAll(xs: seq<Sent>): Bytes
    decreases |xs|
  {
    if xs == [] then [] else Encode(xs[0]) + EncodeAll(xs[1..])
  }

  /** The four magic bytes stand at `j`. */
  predicate MagicStands(buf: Bytes, j: nat) {
    j + 4 <= |buf| && buf[j] == 0xf0 && buf[j + 1] == 0xde && buf[j + 2] == 0xbc && buf[j + 3] == 0x0a
  }

  lemma StandsIsAt(buf: Bytes, j: nat)
    ensures MagicStands(buf, j) <==> MagicAt(buf, j)
  {
    if j + 4 <= |buf| {
      var s := buf[j..j + 4];
      assert s[0] == buf[j] && s[1] == buf[j + 1] && s[2] == buf[j + 2] && s[3] == buf[j + 3];
    }
  }

  /** Fields fit, and no magic begins in the gap. */
  ghost predicate Valid(x: Sent) {
    && IsUint32(x.cmdId) && IsUint32(|x.body|) && |x.unread| == 8
    && forall j :: 0 <= j < |x.gap| ==> !MagicStands(Encode(x), j)
  }

  /** What is left when the stream ends: part of a frame, or bytes without a magic. */
  ghost predicate CutOff(t: Bytes) {
    || (exists x :: Valid(x) && t < Encode(x))
    || (forall j: nat :: !MagicStands(t, j))
  }

  lemma WireHeader(x: Sent, rest: Bytes)
    requires Valid(x)
    ensures var w := Wire(x) + rest;
            && |w| >= 20 && MagicAt(w, 0)
            && ReadU32(w, 4) == x.cmdId && ReadU32(w, 8) == |x.body|
            && w[20..20 + |x.body|] == x.body && w[20 + |x.body|..] == rest
  {
    hide Le32, FromLe32;
    var w := Wire(x) + rest;
    FromLe32Of(x.cmdId);
    FromLe32Of(|x.body|);
    assert w[0..4] == MAGIC && w[4..8] == Le32(x.cmdId) && w[8..12] == Le32(|x.body|);
  }

  /** The first magic is that of the first frame. */
  lemma FirstMagic(x: Sent, buf: Bytes)
    requires Valid(x) && |buf| >= |x.gap| + 4 && buf[..|x.gap| + 4] == Encode(x)[..|x.gap| + 4]
    ensures MagicAt(buf, |x.gap|) && forall j :: 0 <= j < |x.gap| ==> !MagicAt(buf, j)
  {
    hide Le32;
    var n := |x.gap|;
    assert buf[n..n + 4] == buf[..n + 4][n..] == Encode(x)[n..n + 4] == MAGIC;
    forall j | 0 <= j < n ensures !MagicAt(buf, j) {
      SamePrefix(buf, Encode(x), n + 4, j);
      StandsIsAt(buf, j);
    }
  }

  lemma SamePrefix(s: Bytes, t: Bytes, n: nat, j: nat)
    requires n <= |s| && n <= |t| && s[..n] == t[..n] && j + 4 <= n
    ensures MagicStands(s, j) <==> MagicStands(t, j)
  {
    assert forall k :: 0 <= k < n ==> s[k] == s[..n][k] && t[k] == t[..n][k];
  }

  lemma CutOffHasNone(t: Bytes)
    requires CutOff(t)
    ensures Frames(t) == []
  {
    if x :| Valid(x) && t < Encode(x) {
      CutOffFrame(t, x);
    } else {
      forall j: nat ensures !MagicAt(t, j) { StandsIsAt(t, j); }
      NoMagicNoFrames(t);
    }
  }

  lemma CutOffFrame(t: Bytes, x: Sent)
    requires Valid(x) && t < Encode(x)
    ensures Frames(t) == []
  {
    hide Walk, Le32, FromLe32;
    var n := |x.gap|;
    if |t| < n + 4 {
      forall j: nat ensures !MagicAt(t, j) {
        if j + 4 <= |t| { SamePrefix(t, Encode(x), |t|, j); }
        StandsIsAt(t, j);
      }
      NoMagicNoFrames(t);
    } else {
      assert t[..n + 4] == Encode(x)[..n + 4];
      FirstMagic(x, t);
      FramesAtMagic(t, n);
      var b := t[n..];
      assert b < Wire(x) by { assert Encode(x)[n..] == Wire(x); assert t == Encode(x)[..|t|]; }
      if |b| >= 20 {
        WireHeader(x, []);
        assert b[8..12] == Wire(x)[8..12] == (Wire(x) + [])[8..12];
      }
    }
  }

  function FrameOf(x: Sent): Frame { Frame(x.cmdId, x.body) }

  function FramesOf(xs: seq<Sent>): seq<Frame>
    decreases |xs|
  {
    if xs == [] then [] else [FrameOf(xs[0])] + FramesOf(xs[1..])
  }

  /** Exactly the frames sent are found, with their commands and bodies. */
  lemma {:induction false} StreamFrames(xs: seq<Sent>, t: Bytes)
    requires (forall i :: 0 <= i < |xs| ==> Valid(xs[i])) && CutOff(t)
    ensures Frames(EncodeAll(xs) + t) == FramesOf(xs)
    decreases |xs|
  {
    hide Walk, Le32, FromLe32, CutOff, Valid;
    if xs == [] {
      assert EncodeAll(xs) + t == t;
      CutOffHasNone(t);
    } else {
      var x, rest := xs[0], EncodeAll(xs[1..]) + t;
      var buf := EncodeAll(xs) + t;
      assert buf == x.gap + (Wire(x) + rest) == Encode(x) + rest;
      StreamFrames(xs[1..], t);
      FirstFrame(x, rest);
    }
  }

  lemma FirstFrame(x: Sent, rest: Bytes)
    requires Valid(x)
    ensures Frames(Encode(x) + rest) == [FrameOf(x)] + Frames(rest)
  {
    hide Walk, Le32, FromLe32, Frames;
    var buf, n := Encode(x) + rest, |x.gap|;
    assert buf[..n + 4] == Encode(x)[..n + 4];
    FirstMagic(x, buf);
    FramesAtMagic(buf, n);
    assert buf[n..] == Wire(x) + rest;
    WireHeader(x, rest);
  }

  /** Cut into any chunks, the stream is reported as the frames sent, and tallied as such. */
  lemma SentFramesReported(chunks: seq<Bytes>, xs: seq<Sent>, t: Bytes)
    requires (forall i :: 0 <= i < |xs| ==> Valid(xs[i])) && CutOff(t)
    requires Joined(chunks) == EncodeAll(xs) + t
    ensures Reported(chunks) == FramesOf(xs)
  {
    StreamFrames(xs, t);
    ChunkingDoesNotMatter(chunks);
  }
}
