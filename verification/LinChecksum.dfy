/** The classic LIN checksum: an inverted sum with end-around carry. */
module LinChecksum {
  import opened Bytes

  /** One step of the loop: a sum over 0xFF wraps around with its carry. */
  function AddWithCarry(sum: nat, b: byte): nat {
    if sum + b > 0xFF then sum + b - 0xFF else sum + b
  }

  function Fold(data: seq<byte>): (sum: nat)
    ensures sum <= 0xFF
  {
    if data == [] then 0 else AddWithCarry(Fold(data[..|data| - 1]), data[|data| - 1])
  }

  function Checksum(data: seq<byte>): byte { 0xFF - Fold(data) }

  method ComputeChecksum(data: seq<byte>) returns (checksum: byte)
    ensures checksum == Checksum(data)
    ensures checksum as int == 0xFF - EndAround(Sum(data))
  {
    var sum: nat := 0;
    for i := 0 to |data|
      invariant sum == Fold(data[..i])
    {
      sum := sum + data[i];
      if sum > 0xFF {
        sum := sum - 0xFF;
      }
      assert data[..i + 1][..i] == data[..i];
    }
    assert data[..|data|] == data;
    FoldIsEndAround(data);
    checksum := 0xFF - sum;
  }

  /** The plain sum of the bytes. */
  function Sum(data: seq<byte>): nat {
    if data == [] then 0 else Sum(data[..|data| - 1]) + data[|data| - 1]
  }

  /** The residue of `total` modulo 255, written with 255 in place of 0 unless there is nothing to add. */
  function EndAround(total: nat): nat {
    if total == 0 then 0 else (total - 1) % 0xFF + 1
  }

  /** The loop computes the closed form. */
  lemma {:induction false} FoldIsEndAround(data: seq<byte>)
    ensures Fold(data) == EndAround(Sum(data))
    decreases |data|
  {
    if data != [] {
      FoldIsEndAround(data[..|data| - 1]);
    }
  }

  lemma {:induction false} SumConcat(a: seq<byte>, b: seq<byte>)
    ensures Sum(a + b) == Sum(a) + Sum(b)
    decreases |b|
  {
    if b == [] {
      assert a + b == a;
    } else {
      assert (a + b)[..|a + b| - 1] == a + b[..|b| - 1];
      SumConcat(a, b[..|b| - 1]);
    }
  }

  lemma SumSplit(a: seq<byte>, x: byte, c: seq<byte>)
    ensures Sum(a + [x] + c) == Sum(a + c) + x
  {
    SumConcat(a + [x], c);
    SumConcat(a, c);
    assert (a + [x])[..|a|] == a;
  }

  lemma TakenApart<T>(s: seq<T>, i: nat)
    requires i < |s|
    ensures s == s[..i] + [s[i]] + s[i + 1..]
  {
  }

  /** The sum, taken out of order at position `i`. */
  lemma SumAt(data: seq<byte>, i: nat)
    requires i < |data|
    ensures Sum(data) == Sum(data[..i] + data[i + 1..]) + data[i]
  {
    TakenApart(data, i);
    SumSplit(data[..i], data[i], data[i + 1..]);
  }

  lemma RemoveAt(b: seq<byte>, i: nat)
    requires i < |b|
    ensures multiset(b[..i] + b[i + 1..]) == multiset(b) - multiset{b[i]}
  {
    assert b == b[..i] + [b[i]] + b[i + 1..];
  }

  lemma {:induction false} SumIgnoresOrder(a: seq<byte>, b: seq<byte>)
    requires multiset(a) == multiset(b)
    ensures Sum(a) == Sum(b)
    decreases |a|
  {
    if a == [] {
      assert |b| == |multiset(b)| == |multiset(a)| == 0;
    } else {
      var n := |a| - 1;
      assert a[n] in multiset(b);
      var i :| 0 <= i < |b| && b[i] == a[n];
      RemoveAt(a, n);
      RemoveAt(b, i);
      assert a[..n] + a[n + 1..] == a[..n];
      SumIgnoresOrder(a[..n], b[..i] + b[i + 1..]);
      SumAt(b, i);
    }
  }

  /** Reordering the bytes of a frame goes undetected. */
  lemma ChecksumIgnoresOrder(a: seq<byte>, b: seq<byte>)
    requires multiset(a) == multiset(b)
    ensures Checksum(a) == Checksum(b)
  {
    SumIgnoresOrder(a, b);
    FoldIsEndAround(a);
    FoldIsEndAround(b);
  }

  /** A receiver that adds the checksum to the data gets 0xFF. */
  lemma ReceiverSeesAllOnes(data: seq<byte>)
    ensures Fold(data + [Checksum(data)]) == 0xFF
  {
    assert (data + [Checksum(data)])[..|data|] == data;
  }

  lemma {:induction false} SumIsZero(data: seq<byte>)
    ensures Sum(data) == 0 <==> forall i :: 0 <= i < |data| ==> data[i] == 0
    decreases |data|
  {
    if data != [] {
      SumIsZero(data[..|data| - 1]);
      assert forall i :: 0 <= i < |data| - 1 ==> data[..|data| - 1][i] == data[i];
    }
  }

  lemma EndAroundCollides(rest: nat, a: byte, b: byte)
    requires a != b
    ensures EndAround(rest + a) == EndAround(rest + b) <==> rest > 0 && ((a == 0x00 && b == 0xFF) || (a == 0xFF && b == 0x00))
  {
    if rest > 0 {
      var x, y := rest + a - 1, rest + b - 1;
      assert x % 0xFF == y % 0xFF <==> (x - y) % 0xFF == 0;
    }
  }

  /** A change of one byte goes undetected exactly when it swaps 0x00 and 0xFF beside a byte that is not zero. */
  lemma UndetectedExactly(data: seq<byte>, i: nat, b: byte)
    requires i < |data| && b != data[i]
    ensures Checksum(data[i := b]) == Checksum(data) <==>
            && ((data[i] == 0x00 && b == 0xFF) || (data[i] == 0xFF && b == 0x00))
            && (exists j :: 0 <= j < |data| && j != i && data[j] != 0)
  {
    hide Sum, EndAround;
    var changed := data[i := b];
    var rest := data[..i] + data[i + 1..];
    assert changed[..i] + changed[i + 1..] == rest;
    SumAt(data, i);
    SumAt(changed, i);
    FoldIsEndAround(data);
    FoldIsEndAround(changed);
    EndAroundCollides(Sum(rest), data[i], b);
    OthersNotZero(data, i);
  }

  lemma OthersNotZero(data: seq<byte>, i: nat)
    requires i < |data|
    ensures Sum(data[..i] + data[i + 1..]) > 0 <==> exists j :: 0 <= j < |data| && j != i && data[j] != 0
  {
    var rest := data[..i] + data[i + 1..];
    SumIsZero(rest);
    if Sum(rest) > 0 {
      var j :| 0 <= j < |rest| && rest[j] != 0;
      assert data[if j < i then j else j + 1] != 0;
    }
    if j :| 0 <= j < |data| && j != i && data[j] != 0 {
      assert rest[if j < i then j else j - 1] != 0;
    }
  }
}
