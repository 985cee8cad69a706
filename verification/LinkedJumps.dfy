/** Lists of jumps threaded through their own operands, as values (TCC's i386 back end). */
module LinkedJumps {
  import opened Bits

  /** The live links: the address of each unresolved operand, and the address it holds; 0 ends a list. */
  type Links = map<nat, nat>

  /** l is the list that starts at t. */
  ghost predicate ListFrom(next: Links, t: nat, l: seq<nat>)
    decreases |l|
  {
    if l == [] then t == 0 else t == l[0] && t != 0 && t in next && ListFrom(next, next[t], l[1..])
  }

  ghost predicate HasList(next: Links, t: nat) {
    exists l: seq<nat> :: ListFrom(next, t, l)
  }

  /** Links are apart by the size of an operand, join no two lists, and all lead to the end. */
  ghost predicate LinksOk(next: Links) {
    (forall a, b | a in next && b in next && a < b :: a + 4 <= b) &&
    (forall a, b | a in next && b in next && next[a] == next[b] != 0 :: a == b) &&
    (forall a | a in next :: a != 0 && HasList(next, a))
  }

  /** t starts a list: 0, or a link that no other one points to. */
  ghost predicate Head(next: Links, t: nat) {
    t == 0 || (t in next && forall a | a in next :: next[a] != t)
  }

  // ----- lists

  lemma {:induction false} ListUnique(next: Links, t: nat, l: seq<nat>, m: seq<nat>)
    requires ListFrom(next, t, l) && ListFrom(next, t, m)
    ensures l == m
    decreases |l|
  {
    if l != [] && m != [] {
      ListUnique(next, next[t], l[1..], m[1..]);
      assert l == [l[0]] + l[1..] && m == [m[0]] + m[1..];
    }
  }

  /** The rest of a list from its i-th element on. */
  lemma {:induction false} ListRest(next: Links, t: nat, l: seq<nat>, i: nat)
    requires ListFrom(next, t, l) && i < |l|
    ensures l[i] != 0 && l[i] in next && ListFrom(next, l[i], l[i..])
    ensures next[l[i]] == if i + 1 < |l| then l[i + 1] else 0
    decreases i
  {
    if i > 0 {
      ListRest(next, next[t], l[1..], i - 1);
      assert l[1..][i - 1..] == l[i..];
    } else {
      assert l[0..] == l;
      if |l| > 1 { assert l[1..][0] == l[1]; }
    }
  }

  /** No link occurs twice. */
  lemma ListDistinct(next: Links, t: nat, l: seq<nat>, i: nat, j: nat)
    requires ListFrom(next, t, l) && i < j < |l|
    ensures l[i] != l[j]
  {
    ListRest(next, t, l, i);
    ListRest(next, t, l, j);
    if l[i] == l[j] {
      ListUnique(next, l[i], l[i..], l[j..]);
    }
  }

  /** Lists depend only on their own links. */
  lemma {:induction false} ListSame(next: Links, next': Links, t: nat, l: seq<nat>)
    requires ListFrom(next, t, l)
    requires forall i | 0 <= i < |l| :: l[i] in next' && (l[i] in next ==> next'[l[i]] == next[l[i]])
    ensures ListFrom(next', t, l)
    decreases |l|
  {
    if l != [] {
      forall i | 0 <= i < |l[1..]|
        ensures l[1..][i] in next' && (l[1..][i] in next ==> next'[l[1..][i]] == next[l[1..][i]])
      {
        assert l[1..][i] == l[i + 1];
      }
      ListSame(next, next', next[t], l[1..]);
    }
  }

  lemma ListMembers(next: Links, t: nat, l: seq<nat>)
    requires ListFrom(next, t, l)
    ensures forall i | 0 <= i < |l| :: l[i] in next
  {
    forall i | 0 <= i < |l| ensures l[i] in next { ListRest(next, t, l, i); }
  }

  // ----- separate lists

  /** Going back from a common link: it is reached only from its own list's head. */
  lemma {:induction false} NotShared(next: Links, c: nat, l: seq<nat>, i: nat, x: nat, m: seq<nat>, j: nat)
    requires LinksOk(next) && Head(next, c) && ListFrom(next, c, l) && ListFrom(next, x, m) && i < |l| && j < |m|
    requires l[i] == m[j] && forall k | 0 <= k < |l| :: l[k] != x
    ensures false
    decreases j
  {
    ListRest(next, c, l, i);
    ListRest(next, x, m, j);
    if j > 0 {
      ListRest(next, x, m, j - 1);
      if i > 0 {
        ListRest(next, c, l, i - 1);
        NotShared(next, c, l, i - 1, x, m, j - 1);
      }
    }
  }

  /** A list that starts outside another one stays outside. */
  lemma Separate(next: Links, c: nat, l: seq<nat>, x: nat, m: seq<nat>)
    requires LinksOk(next) && Head(next, c) && ListFrom(next, c, l) && ListFrom(next, x, m) && x !in l
    ensures forall j | 0 <= j < |m| :: m[j] !in l
  {
    forall j: nat | j < |m| ensures m[j] !in l {
      if m[j] in l {
        var i: nat :| i < |l| && l[i] == m[j];
        NotShared(next, c, l, i, x, m, j);
      }
    }
  }

  /** Different heads have no link in common. */
  lemma HeadsApart(next: Links, c: nat, l: seq<nat>, t: nat, m: seq<nat>)
    requires LinksOk(next) && Head(next, c) && Head(next, t) && ListFrom(next, c, l) && ListFrom(next, t, m) && c != t
    ensures t !in l && forall j | 0 <= j < |m| :: m[j] !in l
  {
    if t in l {
      var i: nat :| i < |l| && l[i] == t;
      ListRest(next, c, l, i);
      if i > 0 { ListRest(next, c, l, i - 1); }
    }
    Separate(next, c, l, t, m);
  }

  // ----- the three changes

  lemma NewLink(next: Links, s: nat, t: nat, l: seq<nat>)
    requires LinksOk(next) && Head(next, t) && ListFrom(next, t, l) && s != 0 && forall a | a in next :: a + 4 <= s
    ensures LinksOk(next[s := t]) && Head(next[s := t], s) && ListFrom(next[s := t], s, [s] + l)
    ensures forall h | Head(next, h) && h != t :: Head(next[s := t], h)
  {
    var next' := next[s := t];
    ListMembers(next, t, l);
    ListSame(next, next', t, l);
    assert ([s] + l)[1..] == l;
    forall a | a in next' ensures a != 0 && HasList(next', a) {
      if a == s {
        assert ListFrom(next', s, [s] + l);
      } else {
        assert HasList(next, a);
        var m :| ListFrom(next, a, m);
        ListMembers(next, a, m);
        ListSame(next, next', a, m);
      }
    }
    NoneNew(next, s);
  }

  /** An address beyond all links is none of the values they hold. */
  lemma NoneNew(next: Links, s: nat)
    requires LinksOk(next) && s != 0 && forall a | a in next :: a + 4 <= s
    ensures forall a | a in next :: next[a] != s
  {
    forall a | a in next ensures next[a] != s {
      assert HasList(next, a);
      var m :| ListFrom(next, a, m);
      ListRest(next, a, m, 0);
      if next[a] != 0 { ListRest(next, a, m, 1); }
    }
  }

  lemma {:induction false} ListJoin(next: Links, next': Links, x: nat, m: seq<nat>, e: nat, t: nat, r: seq<nat>)
    requires ListFrom(next, x, m) && m != [] && m[|m| - 1] == e && e in next && next' == next[e := t] &&
             ListFrom(next', t, r)
    requires forall i | 0 <= i < |m| - 1 :: m[i] != e
    ensures ListFrom(next', x, m + r)
    decreases |m|
  {
    assert (m + r)[1..] == m[1..] + r;
    if |m| > 1 {
      assert m[1..][0] == m[1];
      ListJoin(next, next', next[x], m[1..], e, t, r);
    } else {
      assert m[1..] + r == r;
    }
  }

  /** The last link of list l is made to point to t: the lists are joined. */
  lemma JoinLists(next: Links, c: nat, l: seq<nat>, t: nat, r: seq<nat>)
    requires LinksOk(next) && Head(next, c) && Head(next, t) && ListFrom(next, c, l) && ListFrom(next, t, r) &&
             c != t && l != []
    ensures var next' := next[l[|l| - 1] := t];
            l[|l| - 1] in next && LinksOk(next') && Head(next', c) && ListFrom(next', c, l + r) &&
            forall h | Head(next, h) && h != t :: Head(next', h)
  {
    var e := l[|l| - 1];
    ListRest(next, c, l, |l| - 1);
    var next' := next[e := t];
    HeadsApart(next, c, l, t, r);
    ListMembers(next, t, r);
    ListSame(next, next', t, r);
    forall i | 0 <= i < |l| - 1 ensures l[i] != e { ListDistinct(next, c, l, i, |l| - 1); }
    ListJoin(next, next', c, l, e, t, r);
    forall a | a in next' ensures a != 0 && HasList(next', a) { JoinOne(next, e, t, r, a); }
  }

  lemma JoinOne(next: Links, e: nat, t: nat, r: seq<nat>, a: nat)
    requires LinksOk(next) && e in next && next[e] == 0 && ListFrom(next[e := t], t, r) && a in next
    ensures a != 0 && HasList(next[e := t], a)
  {
    var next' := next[e := t];
    assert HasList(next, a);
    var m :| ListFrom(next, a, m);
    ListMembers(next, a, m);
    if e in m {
      var i: nat :| i < |m| && m[i] == e;
      ListRest(next, a, m, i);
      assert i == |m| - 1;
      forall k | 0 <= k < |m| - 1 ensures m[k] != e { ListDistinct(next, a, m, k, |m| - 1); }
      ListJoin(next, next', a, m, e, t, r);
    } else {
      ListSame(next, next', a, m);
    }
  }

  /** The links of list l are gone. */
  ghost function Without(next: Links, l: seq<nat>): Links {
    map a | a in next && a !in l :: next[a]
  }

  lemma DropList(next: Links, c: nat, l: seq<nat>)
    requires LinksOk(next) && Head(next, c) && ListFrom(next, c, l)
    ensures LinksOk(Without(next, l)) && forall h | Head(next, h) && h != c :: Head(Without(next, l), h)
    ensures forall x, m | x !in l && ListFrom(next, x, m) :: ListFrom(Without(next, l), x, m)
  {
    var next' := Without(next, l);
    forall x, m | x !in l && ListFrom(next, x, m) ensures ListFrom(next', x, m) {
      Separate(next, c, l, x, m);
      ListMembers(next, x, m);
      ListSame(next, next', x, m);
    }
    forall a | a in next' ensures a != 0 && HasList(next', a) {
      assert HasList(next, a);
      var m :| ListFrom(next, a, m);
      assert ListFrom(next', a, m);
    }
    forall h | Head(next, h) && h != c ensures Head(next', h) {
      if h in next { NotInside(next, c, l, h); }
    }
  }

  lemma NotInside(next: Links, c: nat, l: seq<nat>, h: nat)
    requires LinksOk(next) && ListFrom(next, c, l) && Head(next, h) && h != c
    ensures h !in l
  {
    if h in l {
      var i: nat :| i < |l| && l[i] == h;
      ListRest(next, c, l, i);
      if i > 0 { ListRest(next, c, l, i - 1); }
    }
  }

  // ----- what happens to the other lists

  ghost predicate IsList(next: Links, h: nat, m: seq<nat>) {
    Head(next, h) && ListFrom(next, h, m)
  }

  /** Every list is still there, except those that started at t or c. */
  ghost predicate OthersKept(next: Links, next': Links, t: nat, c: nat) {
    forall h: nat, m: seq<nat> | h != t && h != c && IsList(next, h, m) :: IsList(next', h, m)
  }

  lemma NewLinkKeeps(next: Links, s: nat, t: nat, l: seq<nat>, c: nat)
    requires LinksOk(next) && IsList(next, t, l) && s != 0 && forall a | a in next :: a + 4 <= s
    ensures OthersKept(next, next[s := t], t, c)
  {
    NewLink(next, s, t, l);
    forall h: nat, m: seq<nat> | h != t && h != c && IsList(next, h, m) ensures IsList(next[s := t], h, m) {
      ListMembers(next, h, m);
      ListSame(next, next[s := t], h, m);
    }
  }

  lemma JoinKeeps(next: Links, c: nat, l: seq<nat>, t: nat, r: seq<nat>)
    requires LinksOk(next) && IsList(next, c, l) && IsList(next, t, r) && c != t && l != []
    ensures l[|l| - 1] in next && OthersKept(next, next[l[|l| - 1] := t], t, c)
  {
    JoinLists(next, c, l, t, r);
    var e := l[|l| - 1];
    forall h: nat, m: seq<nat> | h != t && h != c && IsList(next, h, m) ensures IsList(next[e := t], h, m) {
      HeadsApart(next, c, l, h, m);
      ListMembers(next, h, m);
      ListSame(next, next[e := t], h, m);
    }
  }

  lemma DropKeeps(next: Links, c: nat, l: seq<nat>, t: nat)
    requires LinksOk(next) && IsList(next, c, l)
    ensures OthersKept(next, Without(next, l), t, c)
  {
    DropList(next, c, l);
    forall h: nat, m: seq<nat> | h != t && h != c && IsList(next, h, m) ensures IsList(Without(next, l), h, m) {
      if h in next {
        NotInside(next, c, l, h);
      } else {
        assert m == [];
      }
    }
  }
}
