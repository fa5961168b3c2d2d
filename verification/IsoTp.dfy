/** The ISO-TP transport layer: reassembly of CAN payloads and segmentation into them. */
module IsoTp {
  import opened Bytes

  const ISOTP_SF_MAX := 7
  const ISOTP_FF_MAX := 6
  const ISOTP_CF_MAX := 7
  const ISOTP_MAX_MESSAGE := 4095

  /** The payload of one CAN frame, as `CanFrame::data` yields it. */
  type Frame = f: seq<byte> | |f| <= 8

  /** The fixed 8-byte payloads that `encode_message` fills. */
  type FullFrame = f: seq<byte> | |f| == 8 witness Zeros(8)

  datatype IsoTpError = Overflow | WrongSequence | UnexpectedFrame | InvalidPci | BufferTooSmall

  datatype IsoTpEvent = Incomplete | Complete(message: seq<byte>) | NeedFlowControl

  /** How a call of `feed` ends: `Panicked` stands for the abort on an index that is out of range. */
  datatype FeedResult = Event(event: IsoTpEvent) | Rejected(error: IsoTpError) | Panicked {
    predicate Completes() { Event? && event.Complete? }
  }

  // ---------------------------------------------------------------------------
  // Reassembly
  // ---------------------------------------------------------------------------

  /** The fields of an `IsoTpLink<N>`; `N` is `|buf|`. */
  datatype LinkState = LinkState(buf: seq<byte>, total: nat, filled: nat, sn: nat, receiving: bool) {
    predicate Valid() {
      && sn < 16
      && (receiving ==> ISOTP_FF_MAX + 1 <= total <= |buf| && filled < total)
    }
  }

  /** The states a link can be in: a new link is in one, and `feed` leads from one to another. */
  type Link = l: LinkState | l.Valid() witness LinkState([], 0, 0, 0, false)

  datatype Fed = Fed(link: Link, result: FeedResult)

  function NewLink(n: nat): Link {
    LinkState(Zeros(n), 0, 0, 0, false)
  }

  /** The 12-bit length a First Frame declares; a missing second byte reads as 0. */
  function DeclaredLength(f: Frame): nat
    requires f != []
  {
    f[0] as int % 16 * 256 + if |f| > 1 then f[1] else 0
  }

  predicate SingleFrameAccepted(f: Frame)
    requires f != []
  {
    1 <= f[0] % 16 <= ISOTP_SF_MAX && f[0] % 16 <= |f| - 1
  }

  /** The frames on which `feed` of a link of capacity `n` would index out of range. */
  predicate Panics(n: nat, f: Frame) {
    && f != []
    && (|| (f[0] / 16 == 0 && SingleFrameAccepted(f) && f[0] % 16 > n)
        || (f[0] / 16 == 1 && |f| == 1 && ISOTP_FF_MAX + 1 <= DeclaredLength(f) <= n))
  }

  function FeedSingle(l: Link, f: Frame): Fed
    requires f != [] && (SingleFrameAccepted(f) ==> f[0] % 16 <= |l.buf|)
  {
    if !SingleFrameAccepted(f) then Fed(l, Rejected(InvalidPci))
    else
      var data := f[1..1 + f[0] % 16];
      Fed(l.(buf := Overwrite(l.buf, 0, data), receiving := false), Event(Complete(data)))
  }

  function FeedFirst(l: Link, f: Frame): Fed
    requires f != [] && (ISOTP_FF_MAX + 1 <= DeclaredLength(f) <= |l.buf| ==> |f| >= 2)
  {
    var len := DeclaredLength(f);
    if len < ISOTP_FF_MAX + 1 || len > |l.buf| then Fed(l, Rejected(Overflow))
    else Fed(LinkState(Overwrite(l.buf, 0, f[2..]), len, |f| - 2, 1, true), Event(NeedFlowControl))
  }

  function FeedConsecutive(l: Link, f: Frame): Fed
    requires f != []
  {
    if !l.receiving then Fed(l, Rejected(UnexpectedFrame))
    else if f[0] % 16 != l.sn then Fed(l, Rejected(WrongSequence))
    else
      var next := l.(sn := (l.sn + 1) % 16);
      if l.filled + |f| - 1 > l.total then Fed(next, Rejected(Overflow))
      else
        var buf, filled := Overwrite(l.buf, l.filled, f[1..]), l.filled + |f| - 1;
        if filled >= l.total
        then Fed(next.(buf := buf, filled := filled, receiving := false), Event(Complete(buf[..l.total])))
        else Fed(next.(buf := buf, filled := filled), Event(Incomplete))
  }

  /** The effect of `feed` on the link and what it returns. */
  function FeedFrame(l: Link, f: Frame): (r: Fed)
    ensures |r.link.buf| == |l.buf|
  {
    if Panics(|l.buf|, f) then Fed(l, Panicked)
    else if f == [] then Fed(l, Rejected(InvalidPci))
    else if f[0] / 16 == 0 then FeedSingle(l, f)
    else if f[0] / 16 == 1 then FeedFirst(l, f)
    else if f[0] / 16 == 2 then FeedConsecutive(l, f)
    else Fed(l, Rejected(InvalidPci))
  }

  /** The receiving end of a conversation: a buffer and the four fields that say how far it is filled. */
  class IsoTpLink {
    const buf: array<byte>
    var total: nat
    var filled: nat
    var sn: nat
    var receiving: bool

    ghost function View(): LinkState
      reads this, buf
    {
      LinkState(buf[..], total, filled, sn, receiving)
    }

    constructor (n: nat)
      ensures View() == NewLink(n) && fresh(buf)
      ensures buf[..] == Zeros(n) && total == 0 && filled == 0 && sn == 0 && !receiving
    {
      buf := new byte[n](_ => 0);
      total, filled, sn, receiving := 0, 0, 0, false;
    }

    method Feed(frame: Frame) returns (r: FeedResult)
      requires View().Valid()
      modifies this, buf
      ensures View() == FeedFrame(old(View()), frame).link
      ensures r == FeedFrame(old(View()), frame).result
    {
      if frame == [] {
        return Rejected(InvalidPci);
      }
      var pci := frame[0] / 16;
      if pci == 0 {
        r := TakeSingle(frame);
      } else if pci == 1 {
        r := TakeFirst(frame);
      } else if pci == 2 {
        r := TakeConsecutive(frame);
      } else {
        r := Rejected(InvalidPci);
      }
    }

    /** The Single Frame arm of `Feed`. */
    method TakeSingle(frame: Frame) returns (r: FeedResult)
      requires View().Valid() && frame != [] && frame[0] / 16 == 0
      modifies this, buf
      ensures View() == FeedFrame(old(View()), frame).link
      ensures r == FeedFrame(old(View()), frame).result
    {
      var len := frame[0] % 16;
      if len == 0 || len > ISOTP_SF_MAX || len > |frame| - 1 {
        return Rejected(InvalidPci);
      }
      if len > buf.Length {
        return Panicked;
      }
      assert FeedFrame(View(), frame) == FeedSingle(View(), frame);
      var data := frame[1..1 + len];
      CopyFromSlice(buf, 0, data);
      receiving := false;
      assert buf[..len] == data;
      r := Event(Complete(buf[..len]));
    }

    /** The First Frame arm. */
    method TakeFirst(frame: Frame) returns (r: FeedResult)
      requires View().Valid() && frame != [] && frame[0] / 16 == 1
      modifies this, buf
      ensures View() == FeedFrame(old(View()), frame).link
      ensures r == FeedFrame(old(View()), frame).result
    {
      var len := frame[0] as int % 16 * 256 + if |frame| > 1 then frame[1] else 0;
      if len < ISOTP_FF_MAX + 1 || len > buf.Length {
        return Rejected(Overflow);
      }
      if |frame| < 2 {
        return Panicked;
      }
      assert FeedFrame(View(), frame) == FeedFirst(View(), frame);
      var data := frame[2..];
      CopyFromSlice(buf, 0, data);
      filled, total, sn, receiving := |data|, len, 1, true;
      r := Event(NeedFlowControl);
    }

    /** The Consecutive Frame arm. */
    method TakeConsecutive(frame: Frame) returns (r: FeedResult)
      requires View().Valid() && frame != [] && frame[0] / 16 == 2
      modifies this, buf
      ensures View() == FeedFrame(old(View()), frame).link
      ensures r == FeedFrame(old(View()), frame).result
    {
      assert FeedFrame(View(), frame) == FeedConsecutive(View(), frame);
      if !receiving {
        return Rejected(UnexpectedFrame);
      }
      if frame[0] % 16 != sn {
        return Rejected(WrongSequence);
      }
      sn := (sn + 1) % 16;
      var data := frame[1..];
      if filled + |data| > total {
        return Rejected(Overflow);
      }
      CopyFromSlice(buf, filled, data);
      filled := filled + |data|;
      if filled >= total {
        receiving := false;
        assert buf[..][..total] == buf[..total];
        r := Event(Complete(buf[..total]));
      } else {
        r := Event(Incomplete);
      }
    }
  }

  // ---------------------------------------------------------------------------
  // Segmentation
  // ---------------------------------------------------------------------------

  /** How many frames a message of `len` bytes needs: one, or a First Frame and one per 7 further bytes. */
  function FrameCount(len: nat): (n: nat)
    ensures 1 <= n
  {
    if len <= ISOTP_SF_MAX then 1 else 1 + len / ISOTP_CF_MAX
  }

  /** Frame `k` of a message, cut after its last data byte. */
  function Trimmed(msg: seq<byte>, k: nat): (f: Frame)
    requires |msg| <= ISOTP_MAX_MESSAGE && k < FrameCount(|msg|)
    ensures f != []
  {
    if |msg| <= ISOTP_SF_MAX then [|msg|] + msg
    else if k == 0 then [0x10 + |msg| / 256, |msg| % 256] + msg[..ISOTP_FF_MAX]
    else [0x20 + k % 16] + msg[7 * k - 1..if 7 * k + 6 <= |msg| then 7 * k + 6 else |msg|]
  }

  /** Frame `k` as `encode_message` writes it, zero-padded to 8 bytes. */
  function Padded(msg: seq<byte>, k: nat): (f: FullFrame)
    requires |msg| <= ISOTP_MAX_MESSAGE && k < FrameCount(|msg|)
  {
    var t := Trimmed(msg, k);
    t + Zeros(8 - |t|)
  }

  function Min(a: nat, b: nat): nat { if a <= b then a else b }

  /** A zeroed 8-byte frame that starts with `head` and `data`. */
  function Fill(head: seq<byte>, data: seq<byte>): (f: FullFrame)
    requires |head| + |data| <= 8
  {
    head + data + Zeros(8 - |head| - |data|)
  }

  /** `out` is `was` with the first `n` frames of `msg` stored over its beginning. */
  ghost predicate Stores(out: seq<FullFrame>, was: seq<FullFrame>, msg: seq<byte>, n: nat)
    requires |msg| <= ISOTP_MAX_MESSAGE && n <= FrameCount(|msg|)
  {
    && |out| == |was| && n <= |out|
    && (forall k :: 0 <= k < n ==> out[k] == Padded(msg, k))
    && (forall k :: n <= k < |out| ==> out[k] == was[k])
  }

  lemma StoreOneMore(out: seq<FullFrame>, was: seq<FullFrame>, msg: seq<byte>, n: nat)
    requires |msg| <= ISOTP_MAX_MESSAGE && n < FrameCount(|msg|) && n < |out| && Stores(out, was, msg, n)
    ensures Stores(out[n := Padded(msg, n)], was, msg, n + 1)
  {
  }

  /** Where the encoder's loop stands before chunk `count`. */
  predicate AtChunk(len: nat, idx: nat, sn: nat, count: nat) {
    1 <= count <= FrameCount(len) && idx == Min(7 * count - 1, len) && sn == count % 16
  }

  lemma NextChunk(len: nat, idx: nat, sn: nat, count: nat)
    requires ISOTP_SF_MAX < len && AtChunk(len, idx, sn, count)
    ensures idx < len <==> count < FrameCount(len)
    ensures idx < len ==> AtChunk(len, idx + Min(len - idx, ISOTP_CF_MAX), (sn + 1) % 16, count + 1)
  {
  }

  /** The frame that the encoder's loop writes for a chunk. */
  lemma ChunkIsPadded(msg: seq<byte>, idx: nat, sn: nat, count: nat)
    requires ISOTP_SF_MAX < |msg| <= ISOTP_MAX_MESSAGE && AtChunk(|msg|, idx, sn, count) && idx < |msg|
    requires count < FrameCount(|msg|)
    ensures Fill([0x20 + sn], msg[idx..idx + Min(|msg| - idx, ISOTP_CF_MAX)]) == Padded(msg, count)
  {
  }

  /** The Single Frame, or the First Frame. */
  lemma HeadIsPadded(msg: seq<byte>)
    requires |msg| <= ISOTP_MAX_MESSAGE
    ensures Padded(msg, 0) == if |msg| <= ISOTP_SF_MAX then Fill([|msg|], msg)
                              else Fill([0x10 + |msg| / 256 % 16, |msg| % 256], msg[..Min(|msg|, ISOTP_FF_MAX)])
  {
  }

  lemma StoreHead(out: seq<FullFrame>, msg: seq<byte>)
    requires |msg| <= ISOTP_MAX_MESSAGE && out != []
    ensures Stores(out[0 := Padded(msg, 0)], out, msg, 1)
  {
  }

  /** Stores the frame of one chunk behind the frames that are there. */
  method StoreChunk(msg: seq<byte>, idx: nat, sn: nat, chunk: nat, out: array<FullFrame>, count: nat, ghost was: seq<FullFrame>)
    requires ISOTP_SF_MAX < |msg| <= ISOTP_MAX_MESSAGE && AtChunk(|msg|, idx, sn, count) && idx < |msg|
    requires chunk == Min(|msg| - idx, ISOTP_CF_MAX)
    requires count < FrameCount(|msg|) && count < out.Length && Stores(out[..], was, msg, count)
    modifies out
    ensures Stores(out[..], was, msg, count + 1)
  {
    StoreOneMore(out[..], was, msg, count);
    ChunkIsPadded(msg, idx, sn, count);
    ghost var stored := out[..];
    out[count] := Fill([0x20 + sn], msg[idx..idx + chunk]);
    assert out[..] == stored[count := Padded(msg, count)];
  }

  method EncodeMessage(msg: seq<byte>, out: array<FullFrame>) returns (r: Result<nat, IsoTpError>)
    modifies out
    ensures r == if |msg| > ISOTP_MAX_MESSAGE then Err(Overflow)
                 else if out.Length < FrameCount(|msg|) then Err(BufferTooSmall)
                 else Ok(FrameCount(|msg|))
    ensures r == Err(Overflow) <==> |msg| >= 0x1000
    ensures out.Length >= 586 ==> (r.Ok? <==> |msg| < 0x1000)
    ensures |msg| > ISOTP_MAX_MESSAGE ==> out[..] == old(out[..])
    ensures |msg| <= ISOTP_MAX_MESSAGE ==>
              && (forall k :: 0 <= k < out.Length && k < FrameCount(|msg|) ==> out[k] == Padded(msg, k))
              && (forall k :: FrameCount(|msg|) <= k < out.Length ==> out[k] == old(out[..])[k])
  {
    if |msg| > ISOTP_MAX_MESSAGE {
      return Err(Overflow);
    }
    HeadIsPadded(msg);
    if out.Length > 0 {
      StoreHead(out[..], msg);
    }
    if |msg| <= ISOTP_SF_MAX {
      if out.Length == 0 {
        return Err(BufferTooSmall);
      }
      out[0] := Fill([|msg|], msg);
      assert out[..] == old(out[..])[0 := Padded(msg, 0)];
      return Ok(1);
    }
    var ffLen := Min(|msg|, ISOTP_FF_MAX);
    if out.Length == 0 {
      return Err(BufferTooSmall);
    }
    out[0] := Fill([0x10 + |msg| / 256 % 16, |msg| % 256], msg[..ffLen]);
    assert out[..] == old(out[..])[0 := Padded(msg, 0)];

    var idx: nat, sn: nat, count: nat := ffLen, 1, 1;
    NextChunk(|msg|, idx, sn, count);
    while idx < |msg|
      invariant idx <= |msg| && 1 <= count <= out.Length
      invariant AtChunk(|msg|, idx, sn, count)
      invariant idx < |msg| <==> count < FrameCount(|msg|)
      invariant Stores(out[..], old(out[..]), msg, count)
    {
      if count >= out.Length {
        return Err(BufferTooSmall);
      }
      NextChunk(|msg|, idx, sn, count);
      var chunk := Min(|msg| - idx, ISOTP_CF_MAX);
      NextChunk(|msg|, idx + chunk, (sn + 1) % 16, count + 1);
      StoreChunk(msg, idx, sn, chunk, out, count, old(out[..]));
      idx := idx + chunk;
      sn := (sn + 1) % 16;
      count := count + 1;
    }
    r := Ok(count);
  }
}
