/** The text buffer of encode/lzh.c as a ring that holds the end of an ever growing history. */
module RingBuffer {
  import opened Words
  import opened Parameters

  /** Where byte i of the history lies in the ring. */
  function Pos(i: int): (x: int)
    ensures 0 <= x < N
  {
    (i + N - F) % N
  }

  lemma PosDistinct(i: int, j: int)
    requires Pos(i) == Pos(j) && -N < i - j < N
    ensures i == j
  {
    var a, b := (i + N - F) / N, (j + N - F) / N;
    assert i - j == N * (a - b);
  }

  lemma PosNext(i: int)
    ensures Pos(i + 1) == (Pos(i) + 1) % N
  {
    var q := (i + N - F) / N;
    assert i + N - F == N * q + Pos(i);
    assert i + 1 + N - F == N * q + (Pos(i) + 1);
    if Pos(i) + 1 == N {
      assert i + 1 + N - F == N * (q + 1);
    }
  }

  lemma PosBack(i: int, d: int)
    ensures Pos(i - d) == (Pos(i) - d) % N
  {
    var q := (i + N - F) / N;
    assert i - d + N - F == N * q + (Pos(i) - d);
    ModShift(Pos(i) - d, q);
  }

  lemma ModShift(x: int, q: int)
    ensures (N * q + x) % N == x % N
  {
    var k, r := x / N, x % N;
    assert N * q + x == N * (q + k) + r;
  }

  /** The ring holds the last N bytes of the history h, the next one going to r. */
  ghost predicate Ring(text: seq<byte>, h: seq<byte>, r: int) {
    && |text| >= N && |h| >= N && r == Pos(|h|)
    && forall i | |h| - N <= i < |h| :: text[Pos(i)] == h[i]
  }

  lemma RingStep(text: seq<byte>, h: seq<byte>, r: int, c: byte)
    requires Ring(text, h, r)
    ensures 0 <= r < N && Ring(text[r := c], h + [c], (r + 1) % N)
  {
    PosNext(|h|);
    forall i | |h| + 1 - N <= i < |h| + 1
      ensures text[r := c][Pos(i)] == (h + [c])[i]
    {
      if i < |h| && Pos(i) == r { PosDistinct(i, |h|); }
    }
  }

  /** Byte k of a match starting dist bytes back, while k bytes have been copied. */
  lemma RingRead(text: seq<byte>, h: seq<byte>, r: int, start: int, dist: int, k: int)
    requires Ring(text, h, r) && 1 <= dist <= N && 0 <= k && start == Pos(|h| - k - dist)
    ensures text[(start + k) % N] == h[|h| - dist]
  {
    PosBack(|h| - dist, k);
    var x := Pos(|h| - dist);
    var q := (x - k) / N;
    assert x - k == N * q + start;
    assert start + k == N * (-q) + x;
    ModShift(x, -q);
  }

  lemma RingBounds(text: seq<byte>, h: seq<byte>, r: int)
    requires Ring(text, h, r)
    ensures |text| >= N && |h| >= N && 0 <= r < N && r == Pos(|h|)
  {
  }
}
