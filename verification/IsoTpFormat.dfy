/** The ISO-TP frame format byte by byte, the limits that follow from it, and the answer to every single frame. */
module IsoTpFormat {
  import opened Bytes
  import opened IsoTp
  import opened IsoTpTheorems

  // ---------------------------------------------------------------------------
  // The longest message
  // ---------------------------------------------------------------------------

  /** A First Frame that declares `len`: 12 bits, the upper four of them beside the PCI. */
  ghost predicate Declares(f: Frame, len: nat) {
    |f| >= 2 && 0x10 <= f[0] < 0x20 && (f[0] as int - 0x10) * 256 + f[1] == len
  }

  /** The longest message is the longest that a First Frame can declare. */
  lemma LimitIsDeclarable(len: nat)
    requires len > 7
    ensures (exists f: Frame :: Declares(f, len)) <==> len <= ISOTP_MAX_MESSAGE
  {
    if len <= ISOTP_MAX_MESSAGE {
      var f: Frame := [0x10 + len / 256, len % 256];
      assert Declares(f, len);
    }
  }

  // ---------------------------------------------------------------------------
  // Frames on the wire
  // ---------------------------------------------------------------------------

  /** The protocol bytes of frame `k`: the PCI with the length or with the sequence number. */
  lemma FrameHeads(msg: seq<byte>, k: nat)
    requires |msg| <= ISOTP_MAX_MESSAGE && k < FrameCount(|msg|)
    ensures var f := Padded(msg, k);
            if |msg| <= 7 then f[0] == |msg|
            else if k == 0 then Declares(f, |msg|)
            else f[0] == 0x20 + k % 16
    ensures Padded(msg, k)[0] == Trimmed(msg, k)[0] && (|msg| > 7 && k == 0 ==> Declares(Trimmed(msg, k), |msg|))
  {
  }

  /** What a frame carries behind its protocol bytes. */
  function DataIn(f: Frame): seq<byte> {
    if f == [] then []
    else if 0x10 <= f[0] < 0x20 && |f| >= 2 then f[2..]
    else f[1..]
  }

  function AllData(fs: seq<Frame>): seq<byte> {
    if fs == [] then [] else AllData(fs[..|fs| - 1]) + DataIn(fs[|fs| - 1])
  }

  /** The bytes of a long message that its first `n` frames carry. */
  lemma {:induction false} PrefixData(msg: seq<byte>, n: nat)
    requires 7 < |msg| <= ISOTP_MAX_MESSAGE && n <= FrameCount(|msg|)
    ensures AllData(Frames(msg)[..n]) == msg[..Taken(|msg|, n)]
  {
    hide Trimmed, FrameCount;
    if n > 0 {
      PrefixData(msg, n - 1);
      AllDataPrefix(Frames(msg), n - 1);
      ChunkData(msg, n - 1);
      Joined(msg, Taken(|msg|, n - 1), Taken(|msg|, n));
    }
  }

  /** How many of `len` bytes the first `n` frames have room for. */
  function Taken(len: nat, n: nat): nat {
    if n == 0 then 0 else Min(7 * n - 1, len)
  }

  lemma AllDataPrefix(fs: seq<Frame>, n: nat)
    requires n < |fs|
    ensures AllData(fs[..n + 1]) == AllData(fs[..n]) + DataIn(fs[n])
  {
    hide DataIn;
    assert fs[..n + 1][..n] == fs[..n];
  }

  lemma Joined(msg: seq<byte>, i: nat, j: nat)
    requires i <= j <= |msg|
    ensures msg[..i] + msg[i..j] == msg[..j]
  {
  }

  lemma ChunkData(msg: seq<byte>, k: nat)
    requires 7 < |msg| <= ISOTP_MAX_MESSAGE && k < FrameCount(|msg|)
    ensures Taken(|msg|, k) <= Taken(|msg|, k + 1)
    ensures DataIn(Trimmed(msg, k)) == msg[Taken(|msg|, k)..Taken(|msg|, k + 1)]
  {
    if k > 0 {
      ConsecutiveFrameShape(msg, k);
    }
  }

  lemma ShortFrameData(msg: seq<byte>)
    requires |msg| <= 7
    ensures |Frames(msg)| == 1 && DataIn(Frames(msg)[0]) == msg
  {
  }

  lemma OneFrameData(f: Frame)
    ensures AllData([f]) == DataIn(f)
  {
    hide DataIn;
    assert [f][..0] == [];
  }

  lemma AllTaken(len: nat)
    requires len > 7
    ensures Taken(len, FrameCount(len)) == len
  {
  }

  /** Conservation: the frames of a message carry its bytes, all of them, once and in order. */
  lemma FramesCarryMessage(msg: seq<byte>)
    requires |msg| <= ISOTP_MAX_MESSAGE
    ensures AllData(Frames(msg)) == msg
  {
    hide AllData, DataIn, Taken, Trimmed, FrameCount;
    var fs := Frames(msg);
    if |msg| <= 7 {
      ShortFrameData(msg);
      OneFrameData(fs[0]);
      assert fs == [fs[0]];
    } else {
      PrefixData(msg, |fs|);
      AllTaken(|msg|);
      assert fs[..|fs|] == fs && msg[..|msg|] == msg;
    }
  }

  /** The data bytes that the frames of a message of `len` bytes have room for. */
  function Room(len: nat): nat {
    if len <= 7 then 7 else 7 * FrameCount(len) - 1
  }

  /** There is no frame too many. */
  lemma RoomIsTight(len: nat)
    ensures len <= Room(len) && (len > 7 ==> Room(len) < len + 7)
  {
  }

  /** Padding is zeros behind the message. */
  lemma PaddedFramesCarryMessage(msg: seq<byte>)
    requires |msg| <= ISOTP_MAX_MESSAGE
    ensures |msg| <= Room(|msg|) && AllData(PaddedFrames(msg)) == msg + Zeros(Room(|msg|) - |msg|)
  {
    hide Padded, Trimmed, FrameCount, Room;
    LastFramePadding(msg);
    FramesCarryMessage(msg);
    RoomIsTight(|msg|);
    var m := FrameCount(|msg|) - 1;
    assert PaddedFrames(msg)[..m] == Frames(msg)[..m];
    PaddedData(Frames(msg), PaddedFrames(msg), Zeros(Room(|msg|) - |msg|));
  }

  lemma PaddedData(fs: seq<Frame>, ps: seq<Frame>, pad: seq<byte>)
    requires |fs| == |ps| > 0 && fs[..|fs| - 1] == ps[..|fs| - 1]
    requires DataIn(ps[|fs| - 1]) == DataIn(fs[|fs| - 1]) + pad
    ensures AllData(ps) == AllData(fs) + pad
  {
    hide DataIn;
    Regrouped(AllData(fs[..|fs| - 1]), DataIn(fs[|fs| - 1]), pad);
  }

  /** Only the last frame is padded, with as many zeros as make it 8 bytes long. */
  lemma LastFramePadding(msg: seq<byte>)
    requires |msg| <= ISOTP_MAX_MESSAGE
    ensures var n := FrameCount(|msg|);
            var m := n - 1;
            && (forall k :: 0 <= k < m ==> Padded(msg, k) == Trimmed(msg, k))
            && 8 - |Trimmed(msg, m)| == Room(|msg|) - |msg|
            && DataIn(Padded(msg, m)) == DataIn(Trimmed(msg, m)) + Zeros(Room(|msg|) - |msg|)
  {
    var m := FrameCount(|msg|) - 1;
    if |msg| > 7 {
      forall k | 0 <= k < m ensures Padded(msg, k) == Trimmed(msg, k) {
        PaddedFrameShape(msg, k);
      }
      ConsecutiveFrameShape(msg, m);
      PaddedFrameShape(msg, m);
    }
  }

  lemma Regrouped(a: seq<byte>, b: seq<byte>, c: seq<byte>)
    ensures a + (b + c) == (a + b) + c
  {
  }

  // ---------------------------------------------------------------------------
  // The answer to a single frame
  // ---------------------------------------------------------------------------

  /** What kind of frame the upper half of the first byte says it is. */
  predicate IsPci(f: Frame, pci: nat) {
    f != [] && 16 * pci <= f[0] < 16 * pci + 16
  }

  /** The length that a First Frame declares; a missing second byte counts as 0. */
  function FirstLength(f: Frame): int
    requires IsPci(f, 1)
  {
    (f[0] as int - 0x10) * 256 + if |f| > 1 then f[1] else 0
  }

  predicate SingleIsComplete(f: Frame) {
    IsPci(f, 0) && 1 <= f[0] <= 7 && f[0] < |f|
  }

  /** The next Consecutive Frame of the message that the link is receiving. */
  predicate IsNext(l: Link, f: Frame) {
    IsPci(f, 2) && l.receiving && f[0] - 0x20 == l.sn
  }

  /** Each error, and the abort, in terms of the frame and the link. */
  lemma ErrorsExactly(l: Link, f: Frame)
    ensures var r := FeedFrame(l, f).result;
            && (r == Rejected(InvalidPci) <==> f == [] || f[0] >= 0x30 || (IsPci(f, 0) && !SingleIsComplete(f)))
            && (r == Rejected(UnexpectedFrame) <==> IsPci(f, 2) && !l.receiving)
            && (r == Rejected(WrongSequence) <==> IsPci(f, 2) && l.receiving && !IsNext(l, f))
            && (r == Rejected(Overflow) <==>
                || (IsPci(f, 1) && (FirstLength(f) < 7 || FirstLength(f) > |l.buf|))
                || (IsNext(l, f) && |f| - 1 > l.total - l.filled))
            && r != Rejected(BufferTooSmall)
            && (r == Panicked <==>
                || (SingleIsComplete(f) && f[0] > |l.buf|)
                || (IsPci(f, 1) && |f| == 1 && 7 <= FirstLength(f) <= |l.buf|))
  {
  }

  /** Each event likewise. */
  lemma EventsExactly(l: Link, f: Frame)
    ensures var r := FeedFrame(l, f).result;
            && (r == Event(NeedFlowControl) <==> IsPci(f, 1) && |f| > 1 && 7 <= FirstLength(f) <= |l.buf|)
            && (r == Event(Incomplete) <==> IsNext(l, f) && |f| - 1 < l.total - l.filled)
            && (r.Completes() <==> (SingleIsComplete(f) && f[0] <= |l.buf|) || (IsNext(l, f) && |f| - 1 == l.total - l.filled))
  {
    if IsNext(l, f) && |f| - 1 <= l.total - l.filled {
      AcceptedFrameEffect(l, f);
    }
  }

  /** No frame at all aborts a link of capacity `n`. */
  ghost predicate NeverPanics(n: nat) {
    forall l: Link, f: Frame :: |l.buf| == n ==> FeedFrame(l, f).result != Panicked
  }

  /** The capacities for which `feed` never aborts: those of a Single Frame and more, but fewer than 256 bytes. */
  lemma NeverPanicsExactly(n: nat)
    ensures NeverPanics(n) <==> 7 <= n < 256
  {
    if 7 <= n < 256 {
      forall l: Link, f: Frame | |l.buf| == n ensures FeedFrame(l, f).result != Panicked {
        ErrorsExactly(l, f);
      }
    } else {
      var l, f: Frame := NewLink(n), if n < 7 then [7] + Zeros(7) else [0x11];
      ErrorsExactly(l, f);
      assert FeedFrame(l, f).result == Panicked;
    }
  }
}
