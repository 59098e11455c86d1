/**
  The length-prefixed stream from passt (passt.rs) and the reader that reassembles it
  (dataplane.rs, next_frame and read_passt_frames).
 */
module Framing {
  import opened Arith
  import opened Base

  const FRAME_HEADER_LEN: nat := 4
  const MAX_PASST_PENDING: nat := 0x10_0000
  const READ_BUFFER: nat := 0x1_0000

  /** Big-endian 32-bit length, then the frame. */
  function Encode(payload: Bytes): Bytes
  {
    Be32Bytes(|payload| % 0x1_0000_0000) + payload
  }

  /** The first whole frame in `buf`, if it is all there. */
  function Decode(buf: Bytes): (r: Option<Bytes>)
    ensures r.Some? ==> FRAME_HEADER_LEN + |r.value| <= |buf|
  {
    if |buf| < FRAME_HEADER_LEN then None
    else
      var end := FRAME_HEADER_LEN + DeclaredLen(buf);
      if |buf| < end then None else Some(buf[FRAME_HEADER_LEN..end])
  }

  function DeclaredLen(buf: Bytes): u32
    requires |buf| >= FRAME_HEADER_LEN
  {
    Be32(buf[0], buf[1], buf[2], buf[3])
  }

  /** Bytes not yet framed, frames handed to the port, the uplink MAC seen last, and whether the reader died. */
  datatype Reader = Reader(pending: Bytes, emitted: seq<Bytes>, uplink: Option<Mac>, dead: bool)

  const FRESH: Reader := Reader([], [], None, false)

  /** The MAC slice at 6..12 is taken after checking for only six bytes, so these lengths kill the reader. */
  predicate Fatal(payload: Bytes)
  {
    6 <= |payload| < 12
  }

  /** One decoded frame: learn the uplink MAC, hand the frame on. */
  function Take(r: Reader, payload: Bytes): Reader
    requires FRAME_HEADER_LEN + |payload| <= |r.pending|
  {
    var rest := r.pending[FRAME_HEADER_LEN + |payload|..];
    if Fatal(payload) then Reader(rest, r.emitted, r.uplink, true)
    else Reader(rest, r.emitted + [payload], if |payload| < 6 then r.uplink else Some(MacAt(payload, 6)), false)
  }

  function Drain(r: Reader): Reader
    decreases |r.pending|
  {
    if r.dead then r
    else
      match Decode(r.pending)
      case None => r
      case Some(payload) => Drain(Take(r, payload))
  }

  function Discard(r: Reader): Reader
  {
    if !r.dead && |r.pending| > MAX_PASST_PENDING then r.(pending := []) else r
  }

  /** One read from the socket. */
  function Feed(r: Reader, chunk: Bytes): Reader
  {
    if r.dead then r else Discard(Drain(r.(pending := r.pending + chunk)))
  }

  function Run(r: Reader, chunks: seq<Bytes>): Reader
    decreases |chunks|
  {
    if chunks == [] then r else Run(Feed(r, chunks[0]), chunks[1..])
  }

  function Concat(chunks: seq<Bytes>): Bytes
  {
    if chunks == [] then [] else chunks[0] + Concat(chunks[1..])
  }

  function Stream(frames: seq<Bytes>): Bytes
  {
    if frames == [] then [] else Encode(frames[0]) + Stream(frames[1..])
  }

  // ---- the codec ----------------------------------------------------------------------------

  lemma SameHeader(a: Bytes, b: Bytes)
    requires |a| >= 4 && |b| >= 4 && a[..4] == b[..4]
    ensures DeclaredLen(a) == DeclaredLen(b)
  {
    assert forall i :: 0 <= i < 4 ==> a[..4][i] == a[i] && b[..4][i] == b[i];
    assert a[0] == b[0] && a[1] == b[1] && a[2] == b[2] && a[3] == b[3];
  }

  lemma HeaderFront(h: Bytes, payload: Bytes)
    requires |h| == 4
    ensures (h + payload)[..4] == h[..4]
  {}

  lemma HeaderLen(n: u32)
    ensures DeclaredLen(Be32Bytes(n)) == n
  {}

  lemma DeclaredLenOfEncode(payload: Bytes, buf: Bytes)
    requires |payload| < 0x1_0000_0000 && |buf| >= 4 && buf[..4] == Encode(payload)[..4]
    ensures DeclaredLen(buf) == |payload|
  {
    var n: u32 := |payload| % 0x1_0000_0000;
    var h := Be32Bytes(n);
    HeaderFront(h, payload);
    HeaderLen(n);
    SameHeader(buf, h);
  }

  /** Encoding then decoding, with anything behind it. */
  lemma DecodeEncode(payload: Bytes, tail: Bytes)
    requires |payload| < 0x1_0000_0000
    ensures Decode(Encode(payload) + tail) == Some(payload)
  {
    var buf := Encode(payload) + tail;
    assert buf[..4] == Encode(payload)[..4];
    DeclaredLenOfEncode(payload, buf);
    assert buf[4..4 + |payload|] == payload;
  }

  /** A strict prefix of an encoding decodes to nothing. */
  lemma DecodePrefix(payload: Bytes, b: Bytes)
    requires |payload| < 0x1_0000_0000 && b < Encode(payload)
    ensures Decode(b).None?
  {
    if |b| >= 4 {
      assert b[..4] == Encode(payload)[..4];
      DeclaredLenOfEncode(payload, b);
    }
  }

  // ---- draining does not care where the bytes were cut -----------------------------------------

  lemma DecodeAppend(b: Bytes, c: Bytes)
    requires Decode(b).Some?
    ensures Decode(b + c) == Decode(b)
  {
    var n := FRAME_HEADER_LEN + DeclaredLen(b);
    assert (b + c)[FRAME_HEADER_LEN..n] == b[FRAME_HEADER_LEN..n];
  }

  lemma TakeAppend(r: Reader, payload: Bytes, c: Bytes)
    requires FRAME_HEADER_LEN + |payload| <= |r.pending|
    ensures Take(r.(pending := r.pending + c), payload)
      == Take(r, payload).(pending := Take(r, payload).pending + c)
  {
    var n := FRAME_HEADER_LEN + |payload|;
    assert (r.pending + c)[n..] == r.pending[n..] + c;
  }

  lemma {:induction false} DrainAppend(r: Reader, c: Bytes)
    requires !Drain(r).dead
    ensures Drain(r.(pending := r.pending + c)) == Drain(Drain(r).(pending := Drain(r).pending + c))
    decreases |r.pending|
  {
    if Decode(r.pending).Some? {
      var payload := Decode(r.pending).value;
      DecodeAppend(r.pending, c);
      TakeAppend(r, payload, c);
      DrainAppend(Take(r, payload), c);
    }
  }

  // ---- draining a stream ------------------------------------------------------------------------

  /** Frames every chunking delivers: not of a fatal length, and small enough never to overrun the buffer. */
  predicate Deliverable(f: Bytes)
  {
    !Fatal(f) && |f| <= MAX_PASST_PENDING - 3
  }

  predicate AllDeliverable(frames: seq<Bytes>)
  {
    forall i :: 0 <= i < |frames| ==> Deliverable(frames[i])
  }

  /** `r` has emitted a prefix of `frames` and holds a strict prefix of the next encoding. */
  predicate Midway(r: Reader, before: seq<Bytes>, frames: seq<Bytes>)
  {
    && !r.dead
    && |before| <= |r.emitted| <= |before| + |frames|
    && r.emitted == before + frames[..|r.emitted| - |before|]
    && (if |r.emitted| == |before| + |frames| then r.pending == []
        else r.pending < Encode(frames[|r.emitted| - |before|]))
  }

  lemma MidwayCons(r: Reader, before: seq<Bytes>, f: Bytes, rest: seq<Bytes>)
    requires Midway(r, before + [f], rest)
    ensures Midway(r, before, [f] + rest)
  {
    var k := |r.emitted| - |before| - 1;
    ConsTake(f, rest, k);
    Associative(before, [f], rest[..k]);
  }

  /** A prefix of a concatenation either stops inside the first part or goes past it. */
  lemma ConcatPrefix<T>(b: seq<T>, x: seq<T>, y: seq<T>)
    requires b <= x + y
    ensures |b| < |x| ==> b < x
    ensures |b| >= |x| ==> b == x + b[|x|..] && b[|x|..] <= y && (b == x + y ==> b[|x|..] == y)
  {}

  lemma {:induction false} DrainPrefix(r: Reader, frames: seq<Bytes>)
    requires !r.dead && AllDeliverable(frames) && r.pending <= Stream(frames)
    ensures Midway(Drain(r), r.emitted, frames)
    ensures r.pending == Stream(frames) ==> Drain(r).pending == [] && Drain(r).emitted == r.emitted + frames
    decreases |frames|
  {
    assert r.emitted + frames[..0] == r.emitted;
    if frames != [] {
      var f, rest := frames[0], frames[1..];
      ConcatPrefix(r.pending, Encode(f), Stream(rest));
      if |r.pending| < |Encode(f)| {
        DecodePrefix(f, r.pending);
      } else {
        DecodeEncode(f, r.pending[|Encode(f)|..]);
        DrainPrefix(Take(r, f), rest);
        MidwayCons(Drain(r), r.emitted, f, rest);
        assert [f] + rest == frames;
        Associative(r.emitted, [f], rest);
      }
    }
  }

  lemma MidwayFits(r: Reader, before: seq<Bytes>, frames: seq<Bytes>)
    requires Midway(r, before, frames) && AllDeliverable(frames)
    ensures Discard(r) == r
  {}

  lemma ConcatSplit(a: seq<Bytes>, b: seq<Bytes>)
    ensures Concat(a + b) == Concat(a) + Concat(b)
  {
    if a == [] {
      assert a + b == b;
    } else {
      assert (a + b)[1..] == a[1..] + b;
      ConcatSplit(a[1..], b);
    }
  }

  lemma {:induction false} RunSplit(r: Reader, a: seq<Bytes>, b: seq<Bytes>)
    ensures Run(r, a + b) == Run(Run(r, a), b)
    decreases |a|
  {
    if a == [] {
      assert a + b == b;
    } else {
      assert (a + b)[1..] == a[1..] + b;
      RunSplit(Feed(r, a[0]), a[1..], b);
    }
  }

  /** However a stream of deliverable frames is cut into reads, the reader does what one big read would. */
  lemma {:induction false} RunIsDrain(frames: seq<Bytes>, chunks: seq<Bytes>)
    requires AllDeliverable(frames) && Concat(chunks) <= Stream(frames)
    ensures Run(FRESH, chunks) == Drain(FRESH.(pending := Concat(chunks)))
    decreases |chunks|
  {
    if chunks != [] {
      var init, last := chunks[..|chunks| - 1], chunks[|chunks| - 1];
      assert chunks == init + [last];
      ConcatSplit(init, [last]);
      RunSplit(FRESH, init, [last]);
      assert Concat([last]) == last;
      RunIsDrain(frames, init);
      var r := FRESH.(pending := Concat(init));
      DrainPrefix(r, frames);
      DrainAppend(r, last);
      var whole := FRESH.(pending := Concat(chunks));
      DrainPrefix(whole, frames);
      MidwayFits(Drain(whole), [], frames);
      assert Run(Run(FRESH, init), [last]) == Feed(Run(FRESH, init), last);
    }
  }

  /**
    Chunking independence: for any stream of deliverable frames and any way of cutting any
    prefix of it into reads, exactly the completed frames come out, in order; what is held
    back is a strict prefix of the next encoding; nothing is discarded and the reader lives.
   */
  lemma ChunkingIndependent(frames: seq<Bytes>, chunks: seq<Bytes>)
    requires AllDeliverable(frames) && Concat(chunks) <= Stream(frames)
    ensures Midway(Run(FRESH, chunks), [], frames)
    ensures Concat(chunks) == Stream(frames) ==>
      Run(FRESH, chunks).emitted == frames && Run(FRESH, chunks).pending == []
  {
    RunIsDrain(frames, chunks);
    DrainPrefix(FRESH.(pending := Concat(chunks)), frames);
    assert [] + frames == frames;
  }

  // ---- the uplink MAC --------------------------------------------------------------------------

  /** `i` is the last frame long enough to have a source MAC. */
  predicate LastAddressed(frames: seq<Bytes>, i: int)
  {
    0 <= i < |frames| && |frames[i]| >= 12 && forall j :: i < j < |frames| ==> |frames[j]| < 12
  }

  /** The uplink is the source MAC, bytes 6 to 11, of the last frame that has one; None if none has. */
  ghost predicate UplinkOf(frames: seq<Bytes>, uplink: Option<Mac>)
  {
    match uplink
    case None => forall i :: 0 <= i < |frames| ==> |frames[i]| < 12
    case Some(mac) => exists i :: LastAddressed(frames, i) && frames[i][6..12] == mac.Octets()
  }

  lemma UplinkAppend(frames: seq<Bytes>, uplink: Option<Mac>, payload: Bytes)
    requires UplinkOf(frames, uplink)
    ensures |payload| < 12 ==> UplinkOf(frames + [payload], uplink)
    ensures |payload| >= 12 ==>
      forall mac: Mac :: payload[6..12] == mac.Octets() ==> UplinkOf(frames + [payload], Some(mac))
  {
    var all := frames + [payload];
    if |payload| >= 12 {
      assert LastAddressed(all, |frames|);
    } else if uplink.Some? {
      var i :| LastAddressed(frames, i) && frames[i][6..12] == uplink.value.Octets();
      assert LastAddressed(all, i) && all[i] == frames[i];
    }
  }

  lemma {:induction false} DrainLearns(r: Reader)
    requires UplinkOf(r.emitted, r.uplink)
    ensures UplinkOf(Drain(r).emitted, Drain(r).uplink)
    decreases |r.pending|
  {
    if !r.dead && Decode(r.pending).Some? {
      UplinkAppend(r.emitted, r.uplink, Decode(r.pending).value);
      DrainLearns(Take(r, Decode(r.pending).value));
    }
  }

  /** Whatever bytes arrive and however they are cut, the uplink is that of the frames handed out. */
  lemma {:induction false} UplinkIsLastSource(r: Reader, chunks: seq<Bytes>)
    requires UplinkOf(r.emitted, r.uplink)
    ensures UplinkOf(Run(r, chunks).emitted, Run(r, chunks).uplink)
    decreases |chunks|
  {
    if chunks != [] {
      if !r.dead { DrainLearns(r.(pending := r.pending + chunks[0])); }
      UplinkIsLastSource(Feed(r, chunks[0]), chunks[1..]);
    }
  }

  /** The length stands in front, most significant byte first. */
  lemma LengthInFront(payload: Bytes)
    requires |payload| < 0x1_0000_0000
    ensures var e := Encode(payload);
      && |e| == 4 + |payload| && e[4..] == payload
      && e[0] as nat * 0x100_0000 + e[1] as nat * 0x1_0000 + e[2] as nat * 0x100 + e[3] == |payload|
  {
    var n: u32 := |payload| % 0x1_0000_0000;
    var h, e := Be32Bytes(n), Encode(payload);
    assert e[0] == h[0] && e[1] == h[1] && e[2] == h[2] && e[3] == h[3];
    BigEndian(h[0], h[1], h[2], h[3]);
  }

  lemma BigEndian(a: byte, b: byte, c: byte, d: byte)
    ensures Be32(a, b, c, d) == a as nat * 0x100_0000 + b as nat * 0x1_0000 + c as nat * 0x100 + d
  {}

  // ---- and exactly which frames that covers ----------------------------------------------------

  /** Reads as the socket can return them: never empty, at most one buffer. */
  predicate LegalReads(chunks: seq<Bytes>)
  {
    forall i :: 0 <= i < |chunks| ==> 1 <= |chunks[i]| <= READ_BUFFER
  }

  function Singles(b: Bytes): (s: seq<Bytes>)
    ensures |s| == |b| && LegalReads(s)
    ensures forall i :: 0 <= i < |b| ==> s[i] == [b[i]]
  {
    if b == [] then [] else Singles(b[..|b| - 1]) + [[b[|b| - 1]]]
  }

  lemma {:induction false} ConcatSingles(b: Bytes)
    ensures Concat(Singles(b)) == b
  {
    if b != [] {
      var init := b[..|b| - 1];
      ConcatSingles(init);
      ConcatSplit(Singles(init), [[b[|b| - 1]]]);
      assert Concat([[b[|b| - 1]]]) == [b[|b| - 1]];
    }
  }

  function Total(frames: seq<Bytes>): nat
  {
    if frames == [] then 0 else Total(frames[..|frames| - 1]) + |frames[|frames| - 1]|
  }

  /** The reader never hands out more bytes than it was given. */
  lemma {:induction false} DrainConserves(r: Reader)
    ensures Total(Drain(r).emitted) + |Drain(r).pending| <= Total(r.emitted) + |r.pending|
    decreases |r.pending|
  {
    if !r.dead && Decode(r.pending).Some? {
      var next := Take(r, Decode(r.pending).value);
      if !next.dead {
        assert next.emitted[..|next.emitted| - 1] == r.emitted;
      }
      DrainConserves(next);
    }
  }

  lemma {:induction false} RunConserves(r: Reader, chunks: seq<Bytes>)
    ensures Total(Run(r, chunks).emitted) <= Total(r.emitted) + |r.pending| + |Concat(chunks)|
    decreases |chunks|
  {
    if chunks != [] {
      DrainConserves(r.(pending := r.pending + chunks[0]));
      RunConserves(Feed(r, chunks[0]), chunks[1..]);
    }
  }

  lemma SinglesLast(b: Bytes, last: byte)
    ensures Run(FRESH, Singles(b + [last])) == Feed(Run(FRESH, Singles(b)), [last])
  {
    assert (b + [last])[..|b|] == b;
    RunSplit(FRESH, Singles(b), [[last]]);
    LastRead(Run(FRESH, Singles(b)), [last]);
  }

  /** While the bytes read so far are simply held, one more byte drains them all together. */
  lemma SinglesSnoc(b: Bytes, last: byte)
    requires Run(FRESH, Singles(b)) == FRESH.(pending := b)
    ensures Run(FRESH, Singles(b + [last])) == Discard(Drain(FRESH.(pending := b + [last])))
  {
    SinglesLast(b, last);
  }

  lemma SliceSnoc<T>(s: seq<T>, n: nat)
    requires n < |s|
    ensures s[..n] + [s[n]] == s[..n + 1]
    ensures n + 1 == |s| ==> s[..n] + [s[n]] == s
  {}

  lemma LastRead(r: Reader, chunk: Bytes)
    ensures Run(r, [chunk]) == Feed(r, chunk)
  {
    assert [chunk][1..] == [];
  }

  /** None of the first `n` prefixes holds a whole frame. */
  predicate Incomplete(enc: Bytes, n: nat)
    requires n <= |enc|
  {
    forall k :: 0 <= k <= n ==> Decode(enc[..k]).None?
  }

  lemma EncodingIncomplete(f: Bytes, n: nat)
    requires |f| < 0x1_0000_0000 && n < |Encode(f)|
    ensures Incomplete(Encode(f), n)
  {
    forall k | 0 <= k <= n ensures Decode(Encode(f)[..k]).None? { DecodePrefix(f, Encode(f)[..k]); }
  }

  /** Byte-by-byte reads of an incomplete frame fill the buffer up to its limit. */
  lemma {:induction false} SinglesFill(enc: Bytes, n: nat)
    requires n <= |enc| && n <= MAX_PASST_PENDING && Incomplete(enc, n)
    ensures Run(FRESH, Singles(enc[..n])) == FRESH.(pending := enc[..n])
  {
    if n > 0 {
      SinglesFill(enc, n - 1);
      SliceSnoc(enc, n - 1);
      SinglesSnoc(enc[..n - 1], enc[n - 1]);
      assert Decode(enc[..n]).None?;
    }
  }

  /** One byte past the limit and everything held so far is discarded. */
  lemma SinglesOverrun(enc: Bytes)
    requires MAX_PASST_PENDING < |enc| && Incomplete(enc, MAX_PASST_PENDING + 1)
    ensures Run(FRESH, Singles(enc[..MAX_PASST_PENDING + 1])) == FRESH
  {
    var n := MAX_PASST_PENDING;
    SinglesFill(enc, n);
    SliceSnoc(enc, n);
    SinglesSnoc(enc[..n], enc[n]);
    assert Decode(enc[..n + 1]).None?;
  }

  lemma {:induction false} SinglesSplit(b: Bytes, n: nat)
    requires n <= |b|
    ensures Singles(b) == Singles(b[..n]) + Singles(b[n..])
  {}

  lemma LongFrameIsLost(f: Bytes)
    requires MAX_PASST_PENDING - 3 < |f| < 0x1_0000_0000
    ensures Run(FRESH, Singles(Encode(f))).emitted != [f]
  {
    var enc, n := Encode(f), MAX_PASST_PENDING + 1;
    EncodingIncomplete(f, n);
    SinglesOverrun(enc);
    SinglesSplit(enc, n);
    RunSplit(FRESH, Singles(enc[..n]), Singles(enc[n..]));
    RunConserves(FRESH, Singles(enc[n..]));
    ConcatSingles(enc[n..]);
    assert Total([f]) == |f| by { assert [f][..0] == []; }
  }

  /**
    A frame survives every legal chunking iff its length is not fatal and its encoding fits the
    buffer with a byte to spare.
   */
  lemma DeliverableIsExact(f: Bytes)
    requires |f| < 0x1_0000_0000
    ensures Deliverable(f) <==>
      forall chunks :: LegalReads(chunks) && Concat(chunks) == Encode(f) ==> Run(FRESH, chunks).emitted == [f]
  {
    assert Stream([f]) == Encode(f) by { assert [f][1..] == []; }
    if Deliverable(f) {
      forall chunks | LegalReads(chunks) && Concat(chunks) == Encode(f) ensures Run(FRESH, chunks).emitted == [f] {
        ChunkingIndependent([f], chunks);
      }
    } else {
      ConcatSingles(Encode(f));
      if Fatal(f) {
        FatalFrameKills(f);
      } else {
        LongFrameIsLost(f);
      }
    }
  }

  lemma FatalDrain(f: Bytes)
    requires Fatal(f)
    ensures Drain(FRESH.(pending := Encode(f))).emitted == []
  {
    var full := FRESH.(pending := Encode(f));
    assert Encode(f) + [] == Encode(f);
    DecodeEncode(f, []);
    assert Take(full, f).dead;
  }

  lemma SinglesWhole(enc: Bytes, n: nat)
    requires n + 1 == |enc| && n <= MAX_PASST_PENDING && Incomplete(enc, n)
    ensures Run(FRESH, Singles(enc)).emitted == Drain(FRESH.(pending := enc)).emitted
  {
    SinglesFill(enc, n);
    SliceSnoc(enc, n);
    SinglesSnoc(enc[..n], enc[n]);
  }

  lemma FatalFrameKills(f: Bytes)
    requires Fatal(f)
    ensures Run(FRESH, Singles(Encode(f))).emitted != [f]
  {
    var n := |Encode(f)| - 1;
    EncodingIncomplete(f, n);
    FatalDrain(f);
    SinglesWhole(Encode(f), n);
  }

  // ---- the reader object --------------------------------------------------------------------------

  class PasstReader {
    var pending: Bytes
    var emitted: seq<Bytes>
    var uplink: Option<Mac>
    var dead: bool

    function View(): Reader
      reads this
    {
      Reader(pending, emitted, uplink, dead)
    }

    constructor ()
      ensures View() == FRESH
    {
      pending, emitted, uplink, dead := [], [], None, false;
    }

    /** Appends the bytes read and hands out every frame that is now complete. */
    method Read(chunk: Bytes)
      modifies this
      ensures View() == Feed(old(View()), chunk)
    {
      if dead {
        return;
      }
      pending := pending + chunk;
      ghost var start := View();
      var frame := Decode(pending);
      while frame.Some?
        invariant !dead && frame == Decode(pending)
        invariant Drain(View()) == Drain(start)
        decreases |pending|
      {
        var payload := frame.value;
        pending := pending[FRAME_HEADER_LEN + |payload|..];
        if |payload| >= 6 {
          if |payload| < 12 {
            dead := true;
            return;
          }
          uplink := Some(MacAt(payload, 6));
        }
        emitted := emitted + [payload];
        frame := Decode(pending);
      }
      if |pending| > MAX_PASST_PENDING {
        pending := [];
      }
    }
  }
}
