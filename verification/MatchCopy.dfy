/** Copying a match inside the decoder's output window (miniz tinfl_decompress). */
module MatchCopy {
  import opened Bits
  import opened Deflate

  /** The buffer holds the last size bytes of the output, byte x at position x % size. */
  ghost predicate Window(buf: seq<Byte>, size: nat, out: seq<Byte>) {
    size > 0 && forall x: nat | InWindow(x, size, out) :: SlotIs(buf, x % size, out[x])
  }

  predicate InWindow(x: nat, size: nat, out: seq<Byte>) { x < |out| <= x + size }

  predicate SlotIs(buf: seq<Byte>, slot: nat, c: Byte) { slot < |buf| && buf[slot] == c }

  lemma ModDiffers(x: nat, y: nat, size: nat)
    requires size > 0 && x < y < x + size
    ensures x % size != y % size
  {
    var a, b := x / size, y / size;
    assert x == a * size + x % size && y == b * size + y % size;
    if b <= a { MulMono(b, a, size); } else { Multiple(size, a, b); }
  }

  lemma Multiple(size: nat, a: nat, b: nat)
    requires a < b
    ensures a * size + size <= b * size
  {
    MulMono(a + 1, b, size);
    assert (a + 1) * size == a * size + size;
  }

  lemma WindowWrite(buf: seq<Byte>, size: nat, out: seq<Byte>, c: Byte)
    requires Window(buf, size, out) && |out| % size < |buf|
    ensures Window(buf[|out| % size := c], size, out + [c])
  {
    var slot, buf', out' := |out| % size, buf[|out| % size := c], out + [c];
    forall x: nat | InWindow(x, size, out') ensures SlotIs(buf', x % size, out'[x]) {
      if x < |out| {
        assert SlotIs(buf, x % size, out[x]);
        ModDiffers(x, |out|, size);
      }
    }
  }

  /** One more byte of a match. */
  lemma {:induction false} CopyStep(out: seq<Byte>, k: nat, dist: nat)
    requires 0 < dist <= |out|
    ensures var o := CopyMatch(out, k, dist); CopyMatch(out, k + 1, dist) == o + [o[|o| - dist]]
    decreases k
  {
    if k > 0 { CopyStep(out + [out[|out| - dist]], k - 1, dist); }
  }

  /** A copy may be interrupted anywhere and taken up again. */
  lemma {:induction false} CopySplit(out: seq<Byte>, a: nat, b: nat, dist: nat)
    requires 0 < dist <= |out|
    ensures CopyMatch(CopyMatch(out, a, dist), b, dist) == CopyMatch(out, a + b, dist)
    decreases a
  {
    if a > 0 { CopySplit(out + [out[|out| - dist]], a - 1, b, dist); }
  }

  /**
   * The state while a match is copied: k bytes are done, and the next one goes to slot cur. With a buffer that wraps
   * its length is size; otherwise size is larger than every position.
   */
  ghost predicate Copying(buf: seq<Byte>, size: nat, out: seq<Byte>, dist: nat, k: nat) {
    0 < dist <= |out| && dist <= size && Window(buf, size, CopyMatch(out, k, dist))
  }

  method PutByte(buf: array<Byte>, cur: nat, src: nat, ghost size: nat, ghost out: seq<Byte>, ghost dist: nat,
      ghost k: nat)
    requires Copying(buf[..], size, out, dist, k) && cur < buf.Length && cur == (|out| + k) % size
    requires src == (|out| + k - dist) % size
    modifies buf
    ensures Copying(buf[..], size, out, dist, k + 1)
  {
    ghost var o, b := CopyMatch(out, k, dist), buf[..];
    assert InWindow(|o| - dist, size, o);
    assert SlotIs(b, src, o[|o| - dist]);
    CopyStep(out, k, dist);
    WindowWrite(b, size, o, o[|o| - dist]);
    buf[cur] := buf[src];
    assert buf[..] == b[cur := o[|o| - dist]];
  }

  lemma ModStep(x: nat, size: nat, k: nat)
    requires size > 0 && x % size + k < size
    ensures (x + k) % size == x % size + k
  {
    ModIs(x + k, size, x / size, x % size + k);
  }

  lemma ModIs(x: nat, d: nat, q: nat, r: nat)
    requires d > 0 && x == q * d + r && r < d
    ensures x % d == r
  {
    var p, t := x / d, x % d;
    assert x == p * d + t;
    if p < q { Multiple(d, p, q); } else if q < p { Multiple(d, q, p); }
  }

  /** Three bytes at a time, while the source and the target run on without wrapping. */
  method CopyStraight(buf: array<Byte>, cur: nat, src: nat, len: nat, ghost size: nat, ghost out: seq<Byte>,
      ghost dist: nat)
      returns (cur': nat)
    requires Copying(buf[..], size, out, dist, 0) && len >= 3
    requires cur == |out| % size && src == (|out| - dist) % size && cur + len <= buf.Length <= size &&
             src + len <= buf.Length
    modifies buf
    ensures Window(buf[..], size, CopyMatch(out, len, dist)) && cur' == cur + len
  {
    var counter, s: nat := len, src;
    cur' := cur;
    ghost var k: nat := 0;
    while true
      invariant counter == len - k && counter > 2 && cur' == cur + k && s == src + k &&
                Copying(buf[..], size, out, dist, k)
      decreases counter
    {
      PutStraight(buf, cur', s, cur, src, len, size, out, dist, k);
      PutStraight(buf, cur' + 1, s + 1, cur, src, len, size, out, dist, k + 1);
      PutStraight(buf, cur' + 2, s + 2, cur, src, len, size, out, dist, k + 2);
      cur', s, counter, k := cur' + 3, s + 3, counter - 3, k + 3;
      if !(counter > 2) { break; }
    }
    if counter > 0 {
      PutStraight(buf, cur', s, cur, src, len, size, out, dist, k);
      if counter > 1 {
        PutStraight(buf, cur' + 1, s + 1, cur, src, len, size, out, dist, k + 1);
      }
      cur' := cur' + counter;
    }
  }

  method PutStraight(buf: array<Byte>, c: nat, s: nat, ghost cur: nat, ghost src: nat, ghost len: nat, ghost size: nat,
      ghost out: seq<Byte>, ghost dist: nat, ghost k: nat)
    requires Copying(buf[..], size, out, dist, k) && k < len && c == cur + k && s == src + k
    requires cur == |out| % size && src == (|out| - dist) % size && cur + len <= buf.Length <= size &&
             src + len <= buf.Length
    modifies buf
    ensures Copying(buf[..], size, out, dist, k + 1)
  {
    ModStep(|out|, size, k);
    ModStep(|out| - dist, size, k);
    PutByte(buf, c, s, size, out, dist, k);
  }

  /** One byte at a time through the mask, up to the end of the buffer, where the copy is suspended. */
  method CopyMasked(buf: array<Byte>, cur: nat, end: nat, from: nat, dist: nat, len: nat, size: nat,
      ghost out: seq<Byte>)
      returns (cur': nat, from': nat, left: nat)
    requires Copying(buf[..], size, out, dist, 0) && cur <= end <= buf.Length <= size && from % size == |out| % size
    requires cur < end ==> cur == |out| % size
    modifies buf
    ensures left <= len && Window(buf[..], size, CopyMatch(out, len - left, dist))
    ensures cur' == cur + (len - left) <= end && from' == from + (len - left) && (left > 0 ==> cur' == end)
  {
    cur', from', left := cur, from, len;
    ghost var k: nat := 0;
    while left > 0 && cur' < end
      invariant k == len - left && cur' == cur + k <= end && from' == from + k && Copying(buf[..], size, out, dist, k)
    {
      ModStep(|out|, size, k);
      SameMod(from, |out|, size, k, dist);
      PutByte(buf, cur', (from' + size - dist) % size, size, out, dist, k);
      cur', from', left, k := cur' + 1, from' + 1, left - 1, k + 1;
    }
  }

  /**
   * The whole step: contiguous copies run straight, others through the mask. Either way the output grows by what the
   * reference copy appends, up to the point where the buffer is full.
   */
  method CopyInto(buf: array<Byte>, cur: nat, end: nat, dist: nat, len: nat, size: nat, ghost out: seq<Byte>)
      returns (cur': nat, from': nat, left: nat)
    requires 0 < dist <= |out| && dist <= size && len >= 3 && Window(buf[..], size, out)
    requires cur <= end <= buf.Length <= size && cur % size == |out| % size
    modifies buf
    ensures left <= len && Window(buf[..], size, CopyMatch(out, len - left, dist))
    ensures cur' == cur + (len - left) <= end && (left > 0 ==> cur' == end && from' == cur + (len - left))
  {
    var src := (cur + size - dist) % size;
    SameMod(cur, |out|, size, 0, dist);
    Small(cur, size);
    if (if cur >= src then cur else src) + len > end {
      cur', from', left := CopyMasked(buf, cur, end, cur, dist, len, size, out);
    } else {
      cur' := CopyStraight(buf, cur, src, len, size, out, dist);
      from', left := cur, 0;
    }
  }

  lemma Small(x: nat, d: nat)
    ensures x < d ==> x % d == x
  {
  }

  /** Taking a suspended copy up again in a buffer that continues the window. */
  method Resume(buf: array<Byte>, cur: nat, end: nat, from: nat, dist: nat, left: nat, size: nat, ghost out: seq<Byte>,
      ghost done: nat)
      returns (cur': nat, from': nat, left': nat)
    requires 0 < dist <= |out| && dist <= size && Window(buf[..], size, CopyMatch(out, done, dist))
    requires cur <= end <= buf.Length <= size && (cur < end ==> cur == (|out| + done) % size) &&
             from % size == (|out| + done) % size
    modifies buf
    ensures left' <= left && Window(buf[..], size, CopyMatch(out, done + (left - left'), dist))
    ensures cur' == cur + (left - left') <= end && from' == from + (left - left') && (left' > 0 ==> cur' == end)
  {
    ghost var o := CopyMatch(out, done, dist);
    cur', from', left' := CopyMasked(buf, cur, end, from, dist, left, size, o);
    CopySplit(out, done, left - left', dist);
  }

  /** The masked source position. */
  lemma SameMod(a: nat, b: nat, size: nat, k: nat, dist: nat)
    requires size > 0 && a % size == b % size && dist <= b && dist <= size
    ensures (a + k + size - dist) % size == (b + k - dist) % size
  {
    var p, q, r := (b + k - dist) / size, (b + k - dist) % size, b / size;
    assert b + k - dist == p * size + q && b == r * size + b % size;
    var t := a / size;
    assert a == t * size + a % size;
    Combine(p, r, t, size);
    Exact(a + k + size - dist, p - r + t + 1, q, size);
  }

  lemma Combine(p: int, r: int, t: int, d: int)
    ensures (p - r + t + 1) * d == p * d - r * d + t * d + d
  {
  }

  lemma Exact(x: nat, n: int, q: nat, d: nat)
    requires d > 0 && q < d && x == n * d + q
    ensures x % d == q
  {
    if n < 0 {
      Negative(n, d);
    } else {
      ModIs(x, d, n, q);
    }
  }

  lemma Negative(n: int, d: nat)
    requires n < 0
    ensures n * d + d <= 0
  {
    MulMono(1, -n, d);
    assert (-n) * d == -(n * d);
  }
}
