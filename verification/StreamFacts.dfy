/** Where a seek goes (rboot vfs.c). */
module StreamFacts {
  import opened FileAccess

  function Distance(p: nat, t: int): nat { if p >= t then p - t else t - p }

  /** The position nearest to t that the file has. */
  predicate Nearest(p: nat, t: int, len: nat) {
    p <= len && forall q | 0 <= q <= len :: Distance(p, t) <= Distance(q, t)
  }

  /** A seek goes as near as it can to the place asked for: from the start, from here, or back from the end. */
  lemma SeekNearest(pos: nat, len: nat, offset: int)
    ensures Nearest(SeekTo(pos, len, offset, Set), offset, len)
    ensures Nearest(SeekTo(pos, len, offset, Cur), pos + offset, len)
    ensures Nearest(SeekTo(pos, len, offset, End), len - offset, len)
    ensures SeekTo(pos, len, offset, Other) == pos
  {
  }

  lemma NearestIsOne(p: nat, p': nat, t: int, len: nat)
    requires Nearest(p, t, len) && Nearest(p', t, len)
    ensures p == p'
  {
    var q := if t < 0 then 0 else if t > len then len else t;
    assert Distance(p, t) <= Distance(q, t) && Distance(p', t) <= Distance(q, t);
  }
}
