/** The fixed-capacity telemetry ring. */
module Telemetry {
  datatype TelemetryRecord = TelemetryRecord(timestamp: nat, code: nat, value: nat)

  /** The last `n` elements of `s`, or all of them. */
  function LastOf<T>(s: seq<T>, n: nat): (r: seq<T>)
    ensures |r| == if |s| <= n then |s| else n
  {
    if |s| <= n then s else s[|s| - n..]
  }

  /** The fields of a `TelemetryRing<N>`; `N` is `|buf|`. */
  datatype Ring = Ring(buf: seq<TelemetryRecord>, head: nat, len: nat) {
    /** Holds of a new ring and after every push: until it is full, a ring is filled from its start. */
    predicate Valid() {
      && |buf| >= 1 && head < |buf| && len <= |buf|
      && (len < |buf| ==> head == len)
    }

    /** What `iter` yields. */
    function Items(): (r: seq<TelemetryRecord>)
      requires Valid()
      ensures |r| == len
    {
      var start := if len == |buf| then head else 0;
      seq(len, i requires 0 <= i < len => buf[(start + i) % |buf|])
    }

    function Push(record: TelemetryRecord): (r: Ring)
      requires Valid()
      ensures r.Valid() && |r.buf| == |buf|
    {
      PushedHead();
      Ring(buf[head := record], (head + 1) % |buf|, if len < |buf| then len + 1 else len)
    }

    lemma PushedHead()
      requires Valid()
      ensures (head + 1) % |buf| == if head + 1 == |buf| then 0 else head + 1
    {
      if head + 1 < |buf| { Wrap(head + 1, |buf|); } else { Wrap(head + 1, |buf|); }
    }
  }

  const ZERO := TelemetryRecord(0, 0, 0)

  function NewRing(n: nat): (r: Ring)
    requires n >= 1
    ensures r.Valid() && r.Items() == []
  {
    Ring(seq(n, _ => ZERO), 0, 0)
  }

  lemma Wrap(a: nat, n: nat)
    requires n >= 1 && a < 2 * n
    ensures a % n == if a < n then a else a - n
  {
    if a >= n {
      assert a == n * 1 + (a - n);
    }
  }

  /** The index of item `i`, without the modulus. */
  function IndexOf(r: Ring, i: nat): (k: nat)
    requires r.Valid() && i < r.len
    ensures k < |r.buf|
  {
    if r.len < |r.buf| then i
    else if r.head + i < |r.buf| then r.head + i
    else r.head + i - |r.buf|
  }

  lemma ItemAt(r: Ring, i: nat)
    requires r.Valid() && i < r.len
    ensures r.Items()[i] == r.buf[IndexOf(r, i)]
  {
    var start := if r.len == |r.buf| then r.head else 0;
    Wrap(start + i, |r.buf|);
  }

  lemma PushedItemAt(r: Ring, record: TelemetryRecord, i: nat)
    requires r.Valid() && i < r.Push(record).len
    ensures var q := r.Push(record);
            q.buf[IndexOf(q, i)] ==
            if i == q.len - 1 then record
            else if r.len < |r.buf| then r.buf[IndexOf(r, i)]
            else r.buf[IndexOf(r, i + 1)]
  {
    r.PushedHead();
  }

  /** A push appends a record and, when the ring is full, lets go of the oldest one. */
  lemma PushAppends(r: Ring, record: TelemetryRecord)
    requires r.Valid()
    ensures r.Push(record).Items() == LastOf(r.Items() + [record], |r.buf|)
  {
    var q, expected := r.Push(record), LastOf(r.Items() + [record], |r.buf|);
    assert |expected| == q.len;
    forall i | 0 <= i < q.len
      ensures q.Items()[i] == expected[i]
    {
      ItemAt(q, i);
      PushedItemAt(r, record, i);
      if i < q.len - 1 {
        ItemAt(r, if r.len < |r.buf| then i else i + 1);
      }
    }
  }

  lemma LastOfStep<T>(s: seq<T>, x: T, n: nat)
    requires n >= 1
    ensures LastOf(LastOf(s, n) + [x], n) == LastOf(s + [x], n)
  {
  }

  /** A new ring of capacity `n` after the pushes of `log`. */
  function Pushed(n: nat, log: seq<TelemetryRecord>): (r: Ring)
    requires n >= 1
    ensures r.Valid() && |r.buf| == n
  {
    if log == [] then NewRing(n) else Pushed(n, log[..|log| - 1]).Push(log[|log| - 1])
  }

  /** For every capacity and every history of pushes, the ring yields the latest records, oldest first. */
  lemma {:induction false} RingIsRecentHistory(n: nat, log: seq<TelemetryRecord>)
    requires n >= 1
    ensures Pushed(n, log).Items() == LastOf(log, n)
    decreases |log|
  {
    if log != [] {
      var m := |log| - 1;
      RingIsRecentHistory(n, log[..m]);
      PushAppends(Pushed(n, log[..m]), log[m]);
      LastOfStep(log[..m], log[m], n);
      assert log[..m] + [log[m]] == log;
    }
  }

  class TelemetryRing {
    const buf: array<TelemetryRecord>
    var head: nat
    var len: nat

    ghost function View(): Ring
      reads this, buf
    {
      Ring(buf[..], head, len)
    }

    constructor (n: nat)
      requires n >= 1
      ensures View() == NewRing(n) && fresh(buf)
      ensures buf.Length == n && head == 0 && len == 0
    {
      buf := new TelemetryRecord[n](_ => ZERO);
      head, len := 0, 0;
    }

    method Push(record: TelemetryRecord)
      requires View().Valid()
      modifies this, buf
      ensures View() == old(View()).Push(record)
      ensures View().Items() == LastOf(old(View().Items()) + [record], buf.Length)
    {
      PushAppends(View(), record);
      buf[head] := record;
      head := (head + 1) % buf.Length;
      if len < buf.Length {
        len := len + 1;
      }
      assert View().buf == old(View()).Push(record).buf;
    }

    method IsEmpty() returns (empty: bool)
      requires View().Valid()
      ensures empty <==> View().Items() == []
    {
      empty := len == 0;
    }

    method Iter() returns (records: seq<TelemetryRecord>)
      requires View().Valid()
      ensures records == View().Items()
    {
      var start := if len == buf.Length then head else 0;
      records := [];
      for i := 0 to len
        invariant records == View().Items()[..i]
      {
        records := records + [buf[(start + i) % buf.Length]];
      }
    }
  }
}
