/** COM signals: bit fields packed into a 64-bit payload. */
module Signals {
  import opened Bytes

  // ---------------------------------------------------------------------------
  // 64-bit words
  // ---------------------------------------------------------------------------

  /** A `u64` as its bits, the least significant first. */
  type Word = w: seq<bool> | |w| == 64 witness NoBits()

  function NoBits(): (r: seq<bool>)
    ensures |r| == 64 && forall i :: 0 <= i < 64 ==> !r[i]
  {
    seq(64, _ => false)
  }

  function And(a: Word, b: Word): (r: Word)
    ensures forall i :: 0 <= i < 64 ==> r[i] == (a[i] && b[i])
  {
    seq(64, i requires 0 <= i < 64 => a[i] && b[i])
  }

  function Or(a: Word, b: Word): (r: Word)
    ensures forall i :: 0 <= i < 64 ==> r[i] == (a[i] || b[i])
  {
    seq(64, i requires 0 <= i < 64 => a[i] || b[i])
  }

  function Not(a: Word): (r: Word)
    ensures forall i :: 0 <= i < 64 ==> r[i] == !a[i]
  {
    seq(64, i requires 0 <= i < 64 => !a[i])
  }

  /** `a << n`. */
  function Shl(a: Word, n: nat): (r: Word)
    ensures forall i :: 0 <= i < 64 ==> r[i] == (i >= n && a[i - n])
  {
    seq(64, i requires 0 <= i < 64 => i >= n && a[i - n])
  }

  /** `a >> n`. */
  function Shr(a: Word, n: nat): (r: Word)
    ensures forall i :: 0 <= i < 64 ==> r[i] == (i + n < 64 && a[i + n])
  {
    seq(64, i requires 0 <= i < 64 => i + n < 64 && a[i + n])
  }

  /** The word with its lowest `n` bits set; `LowIsPowerLessOne` says which number that is. */
  function Low(n: nat): (r: Word)
    ensures forall i :: 0 <= i < 64 ==> r[i] == (i < n)
  {
    seq(64, i requires 0 <= i < 64 => i < n)
  }

  function Pow2(n: nat): (p: nat)
    ensures p >= 1
  {
    if n == 0 then 1 else 2 * Pow2(n - 1)
  }

  /** The number that a string of bits denotes. */
  function Value(bits: seq<bool>): nat {
    if bits == [] then 0 else (if bits[0] then 1 else 0) + 2 * Value(bits[1..])
  }

  /** A number fits in `n` bits exactly when no higher bit is set. */
  lemma {:induction false} FitsExactly(bits: seq<bool>, n: nat)
    ensures Value(bits) < Pow2(n) <==> forall i :: n <= i < |bits| ==> !bits[i]
    decreases |bits|
  {
    if bits != [] {
      if n == 0 {
        FitsExactly(bits[1..], 0);
        if Value(bits) < Pow2(0) {
          forall i | 0 <= i < |bits| ensures !bits[i] {
            if i > 0 { assert !bits[1..][i - 1]; }
          }
        }
      } else {
        FitsExactly(bits[1..], n - 1);
        if Value(bits) < Pow2(n) {
          forall i | n <= i < |bits| ensures !bits[i] {
            assert !bits[1..][i - 1];
          }
        }
        assert forall i :: n - 1 <= i < |bits| - 1 ==> bits[1..][i] == bits[i + 1];
      }
    }
  }

  /** The mask of the source: `(1 << n) - 1`, and all ones for 64 bits. */
  lemma {:induction false} LowIsPowerLessOne(n: nat)
    requires n <= 64
    ensures Value(Low(n)) == Pow2(n) - 1
  {
    LowBits(Low(n), n);
  }

  lemma {:induction false} LowBits(bits: seq<bool>, n: nat)
    requires n <= |bits| && forall i :: 0 <= i < |bits| ==> bits[i] == (i < n)
    ensures Value(bits) == Pow2(n) - 1
    decreases |bits|
  {
    if n > 0 {
      LowBits(bits[1..], n - 1);
    } else {
      FitsExactly(bits, 0);
    }
  }

  // ---------------------------------------------------------------------------
  // Signals
  // ---------------------------------------------------------------------------

  datatype SignalLayout = SignalLayout(startBit: byte, length: byte) {
    predicate Valid() { 1 <= length <= 64 && startBit as int + length as int <= 64 }

    predicate Covers(i: nat) { startBit <= i < startBit as int + length as int }

    function Unpack(payload: Word): Word {
      And(Shr(payload, startBit), Mask(length))
    }

    function Pack(payload: Word, value: Word): Option<Word> {
      if And(value, Not(Mask(length))) != NoBits() then None
      else Some(Or(And(payload, Not(Shl(Mask(length), startBit))), Shl(value, startBit)))
    }
  }

  /** The layouts that `Signal::new` lets through. */
  type Signal = s: SignalLayout | s.Valid() witness SignalLayout(0, 1)

  function NewSignal(startBit: byte, length: byte): (r: Option<Signal>)
    ensures r == if 1 <= length && startBit as int + length as int <= 64 then Some(SignalLayout(startBit, length)) else None
  {
    if length == 0 || length > 64 || startBit as int + length as int > 64 then None
    else Some(SignalLayout(startBit, length))
  }

  function Mask(length: byte): Word {
    if length >= 64 then Not(NoBits()) else Low(length)
  }

  /** `pack` refuses exactly the values that need more bits than the signal has. */
  lemma PackFailsExactly(s: Signal, payload: Word, value: Word)
    ensures s.Pack(payload, value).None? <==> Value(value) >= Pow2(s.length)
  {
    FitsExactly(value, s.length);
    var high := And(value, Not(Mask(s.length)));
    assert high == NoBits() <==> forall i :: 0 <= i < 64 ==> !high[i];
    if high == NoBits() {
      forall i | s.length <= i < 64 ensures !value[i] {
        assert !high[i];
      }
    }
  }

  /** `pack` replaces the signal's bits and no others. */
  lemma PackBits(s: Signal, payload: Word, value: Word, i: nat)
    requires i < 64 && s.Pack(payload, value).Some?
    ensures s.Pack(payload, value).value[i] == if s.Covers(i) then value[i - s.startBit] else payload[i]
  {
    if i >= s.startBit as int + s.length as int {
      var high := And(value, Not(Mask(s.length)));
      assert high == NoBits() && high[i - s.startBit] == value[i - s.startBit];
    }
  }

  // ---------------------------------------------------------------------------
  // Packing several signals
  // ---------------------------------------------------------------------------

  datatype Entry = Entry(signal: Signal, value: Word)

  /** The entries packed one after the other; one that does not fit stops it. */
  function PackAll(payload: Word, es: seq<Entry>): Option<Word> {
    if es == [] then Some(payload)
    else
      var before := PackAll(payload, es[..|es| - 1]);
      if before.None? then None else es[|es| - 1].signal.Pack(before.value, es[|es| - 1].value)
  }

  predicate AllFit(es: seq<Entry>) {
    forall k :: 0 <= k < |es| ==> Value(es[k].value) < Pow2(es[k].signal.length)
  }

  /** Entry `k` is the last of `es` to cover bit `i`. */
  ghost predicate LastToCover(es: seq<Entry>, k: nat, i: nat) {
    k < |es| && es[k].signal.Covers(i) && forall j :: k < j < |es| ==> !es[j].signal.Covers(i)
  }

  /** The packed word, one entry later. */
  lemma PackAllStep(payload: Word, es: seq<Entry>)
    requires es != [] && AllFit(es) && PackAll(payload, es[..|es| - 1]).Some?
    ensures PackAll(payload, es).Some?
    ensures var e, before := es[|es| - 1], PackAll(payload, es[..|es| - 1]).value;
            forall i :: 0 <= i < 64 ==>
              PackAll(payload, es).value[i] == if e.signal.Covers(i) then e.value[i - e.signal.startBit] else before[i]
  {
    var e, before := es[|es| - 1], PackAll(payload, es[..|es| - 1]).value;
    PackFailsExactly(e.signal, before, e.value);
    forall i | 0 <= i < 64
      ensures PackAll(payload, es).value[i] == if e.signal.Covers(i) then e.value[i - e.signal.startBit] else before[i]
    {
      PackBits(e.signal, before, e.value, i);
    }
  }

  lemma {:induction false} PackAllSucceeds(payload: Word, es: seq<Entry>)
    requires AllFit(es)
    ensures PackAll(payload, es).Some?
    decreases |es|
  {
    if es != [] {
      PackAllSucceeds(payload, es[..|es| - 1]);
      PackAllStep(payload, es);
    }
  }

  /** A covered bit comes from the last entry that covers it. */
  lemma {:induction false} CoveredBit(payload: Word, es: seq<Entry>, k: nat, i: nat)
    requires i < 64 && AllFit(es) && LastToCover(es, k, i)
    ensures PackAll(payload, es).Some?
    ensures PackAll(payload, es).value[i] == es[k].value[i - es[k].signal.startBit]
    decreases |es|
  {
    PackAllSucceeds(payload, es);
    PackAllSucceeds(payload, es[..|es| - 1]);
    PackAllStep(payload, es);
    if k < |es| - 1 {
      CoveredBit(payload, es[..|es| - 1], k, i);
    }
  }

  /** A bit that no entry covers keeps its old value. */
  lemma {:induction false} UncoveredBit(payload: Word, es: seq<Entry>, i: nat)
    requires i < 64 && AllFit(es) && forall k :: 0 <= k < |es| ==> !es[k].signal.Covers(i)
    ensures PackAll(payload, es).Some? && PackAll(payload, es).value[i] == payload[i]
    decreases |es|
  {
    PackAllSucceeds(payload, es);
    if es != [] {
      UncoveredBit(payload, es[..|es| - 1], i);
      PackAllStep(payload, es);
    }
  }

  predicate Disjoint(s: Signal, t: Signal) {
    s.startBit as int + s.length as int <= t.startBit || t.startBit as int + t.length as int <= s.startBit
  }

  /** A signal reads back as packed as long as nothing packed later overlaps it. */
  lemma LastPackedValueReadsBack(payload: Word, es: seq<Entry>, k: nat)
    requires k < |es| && AllFit(es)
    requires forall j :: k < j < |es| ==> Disjoint(es[k].signal, es[j].signal)
    ensures PackAll(payload, es).Some? && es[k].signal.Unpack(PackAll(payload, es).value) == es[k].value
  {
    var s, value := es[k].signal, es[k].value;
    PackAllSucceeds(payload, es);
    var packed := PackAll(payload, es).value;
    FitsExactly(value, s.length);
    forall b: nat | s.Covers(b)
      ensures packed[b] == value[b - s.startBit]
    {
      forall j | k < j < |es| ensures !es[j].signal.Covers(b) {
        assert Disjoint(s, es[j].signal);
      }
      CoveredBit(payload, es, k, b);
    }
    UnpackedIs(s, packed, value);
  }

  /** A word that holds the bits of `value` where the signal is unpacks to `value`. */
  lemma UnpackedIs(s: Signal, packed: Word, value: Word)
    requires forall i :: s.length <= i < 64 ==> !value[i]
    requires forall b: nat :: s.Covers(b) ==> packed[b] == value[b - s.startBit]
    ensures s.Unpack(packed) == value
  {
    forall i | 0 <= i < 64
      ensures s.Unpack(packed)[i] == value[i]
    {
      if i < s.length {
        var b: nat := s.startBit as int + i;
        assert s.Covers(b);
      }
    }
  }

  /** A signal that overlaps nothing packed is not disturbed. */
  lemma OtherSignalsUndisturbed(payload: Word, es: seq<Entry>, s: Signal)
    requires AllFit(es) && forall j :: 0 <= j < |es| ==> Disjoint(s, es[j].signal)
    ensures PackAll(payload, es).Some? && s.Unpack(PackAll(payload, es).value) == s.Unpack(payload)
  {
    PackAllSucceeds(payload, es);
    var packed := PackAll(payload, es).value;
    forall b: nat | s.Covers(b)
      ensures packed[b] == s.Unpack(payload)[b - s.startBit]
    {
      forall j | 0 <= j < |es| ensures !es[j].signal.Covers(b) {
        assert Disjoint(s, es[j].signal);
      }
      UncoveredBit(payload, es, b);
    }
    UnpackedIs(s, packed, s.Unpack(payload));
  }

  predicate PairwiseDisjoint(es: seq<Entry>) {
    forall j, k :: 0 <= j < k < |es| ==> Disjoint(es[j].signal, es[k].signal)
  }

  /** Signals that do not overlap can be packed in any order. */
  lemma OrderIrrelevant(payload: Word, es: seq<Entry>, fs: seq<Entry>)
    requires AllFit(es) && PairwiseDisjoint(es) && PairwiseDisjoint(fs) && multiset(es) == multiset(fs)
    ensures AllFit(fs) && PackAll(payload, es).Some? && PackAll(payload, fs) == PackAll(payload, es)
  {
    forall k | 0 <= k < |fs| ensures Value(fs[k].value) < Pow2(fs[k].signal.length) {
      var j := SameEntry(fs, es, k);
    }
    PackAllSucceeds(payload, es);
    PackAllSucceeds(payload, fs);
    var p, q := PackAll(payload, es).value, PackAll(payload, fs).value;
    forall i | 0 <= i < 64 ensures p[i] == q[i] {
      SameBit(payload, es, fs, i);
    }
    assert p == q;
  }

  lemma SameBit(payload: Word, es: seq<Entry>, fs: seq<Entry>, i: nat)
    requires i < 64 && AllFit(es) && AllFit(fs)
    requires PairwiseDisjoint(es) && PairwiseDisjoint(fs) && multiset(es) == multiset(fs)
    ensures PackAll(payload, es).Some? && PackAll(payload, fs).Some?
    ensures PackAll(payload, es).value[i] == PackAll(payload, fs).value[i]
  {
    if k :| 0 <= k < |es| && es[k].signal.Covers(i) {
      var j := SameEntry(es, fs, k);
      OnlyCover(es, k, i);
      OnlyCover(fs, j, i);
      CoveredBit(payload, es, k, i);
      CoveredBit(payload, fs, j, i);
    } else {
      forall j | 0 <= j < |fs| ensures !fs[j].signal.Covers(i) {
        var k := SameEntry(fs, es, j);
      }
      UncoveredBit(payload, es, i);
      UncoveredBit(payload, fs, i);
    }
  }

  lemma SameEntry(es: seq<Entry>, fs: seq<Entry>, k: nat) returns (j: nat)
    requires k < |es| && multiset(es) == multiset(fs)
    ensures j < |fs| && fs[j] == es[k]
  {
    assert es[k] in multiset(fs);
    j :| 0 <= j < |fs| && fs[j] == es[k];
  }

  lemma OnlyCover(es: seq<Entry>, k: nat, i: nat)
    requires k < |es| && PairwiseDisjoint(es) && es[k].signal.Covers(i)
    ensures LastToCover(es, k, i)
  {
    forall j | k < j < |es| ensures !es[j].signal.Covers(i) {
      assert Disjoint(es[k].signal, es[j].signal);
    }
  }

  // ---------------------------------------------------------------------------
  // Overlap
  // ---------------------------------------------------------------------------

  lemma DisjointShareNoBit(s: Signal, t: Signal)
    ensures Disjoint(s, t) <==> forall i: nat :: !(s.Covers(i) && t.Covers(i))
  {
    var i: nat := if s.startBit <= t.startBit then t.startBit else s.startBit;
    assert !Disjoint(s, t) ==> s.Covers(i) && t.Covers(i);
  }

  /** `value` packed into `s`, and then `other` into `t`, leaves `s` reading `value`. */
  predicate KeepsEarlier(s: Signal, t: Signal, payload: Word, value: Word, other: Word) {
    var first := s.Pack(payload, value);
    first.Some? && t.Pack(first.value, other).Some? ==> s.Unpack(t.Pack(first.value, other).value) == value
  }

  /** Disjointness is exact: of two signals, the first survives every packing of the second just when they share no bit. */
  lemma DisjointExactly(s: Signal, t: Signal)
    ensures Disjoint(s, t) <==> forall payload, value, other :: KeepsEarlier(s, t, payload, value, other)
  {
    if Disjoint(s, t) {
      forall payload, value, other ensures KeepsEarlier(s, t, payload, value, other) {
        DisjointKeepsEarlier(s, t, payload, value, other);
      }
    } else {
      OverlapDisturbs(s, t);
    }
  }

  lemma DisjointKeepsEarlier(s: Signal, t: Signal, payload: Word, value: Word, other: Word)
    requires Disjoint(s, t)
    ensures KeepsEarlier(s, t, payload, value, other)
  {
    var first := s.Pack(payload, value);
    if first.Some? && t.Pack(first.value, other).Some? {
      var both := t.Pack(first.value, other).value;
      forall i | 0 <= i < 64 ensures s.Unpack(both)[i] == value[i] {
        if i < s.length as int {
          PackBits(t, first.value, other, i + s.startBit);
          PackBits(s, payload, value, i + s.startBit);
        } else {
          assert And(value, Not(Mask(s.length)))[i] == value[i];
        }
      }
    }
  }

  /** All ones in `t` over all zeros in `s` show in every bit that they share. */
  lemma OverlapDisturbs(s: Signal, t: Signal)
    requires !Disjoint(s, t)
    ensures !KeepsEarlier(s, t, NoBits(), NoBits(), Low(t.length))
  {
    var i: nat := if s.startBit <= t.startBit then t.startBit else s.startBit;
    var zeros, ones := NoBits(), Low(t.length);
    assert And(zeros, Not(Mask(s.length))) == NoBits();
    assert And(ones, Not(Mask(t.length))) == NoBits();
    var first := s.Pack(zeros, zeros).value;
    PackBits(t, first, ones, i);
    var both := t.Pack(first, ones).value;
    assert both[i] && s.Unpack(both)[i - s.startBit];
  }
}
