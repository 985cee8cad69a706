/** Emitting jumps and resolving their lists in the code buffer (TCC's i386 back end). */
module JumpPatch {
  import opened Bits
  import opened LinkedJumps
  import opened Machine

  // ----- 32-bit operands

  const TWO32: nat := 0x1_0000_0000

  function Word(b: seq<Byte>): (w: nat)
    requires |b| == 4
    ensures w < TWO32
  {
    var b0: nat, b1: nat, b2: nat, b3: nat := b[0], b[1], b[2], b[3];
    b0 + 256 * b1 + 0x1_0000 * b2 + 0x100_0000 * b3
  }

  /** The bytes of a number in two's complement, low byte first. */
  function Bytes32(v: int): (b: seq<Byte>)
    ensures |b| == 4
  {
    var w := v % TWO32;
    [w % 256, w / 256 % 256, w / 0x1_0000 % 256, w / 0x100_0000]
  }

  lemma WordOfBytes(v: int)
    ensures Word(Bytes32(v)) == v % TWO32
  {
    var w := v % TWO32;
    var a, b, c := w / 256, w / 0x1_0000, w / 0x100_0000;
    assert a / 256 == b && b / 256 == c;
  }

  function WordAt(code: seq<Byte>, t: nat): nat
    requires t + 4 <= |code|
  {
    Word(code[t..t + 4])
  }

  /** The code with the operand at t replaced. */
  function Patch(code: seq<Byte>, t: nat, v: int): (r: seq<Byte>)
    requires t + 4 <= |code|
    ensures |r| == |code|
  {
    code[..t] + Bytes32(v) + code[t + 4..]
  }

  lemma PatchAt(code: seq<Byte>, t: nat, v: int)
    requires t + 4 <= |code|
    ensures WordAt(Patch(code, t, v), t) == v % TWO32
    ensures forall u: nat | u + 4 <= |code| && (u + 4 <= t || t + 4 <= u) ::
              WordAt(Patch(code, t, v), u) == WordAt(code, u)
    ensures forall k | 0 <= k < |code| && !(t <= k < t + 4) :: Patch(code, t, v)[k] == code[k]
  {
    var r := Patch(code, t, v);
    assert r[t..t + 4] == Bytes32(v);
    WordOfBytes(v);
    forall u: nat | u + 4 <= |code| && (u + 4 <= t || t + 4 <= u) ensures WordAt(r, u) == WordAt(code, u) {
      assert r[u..u + 4] == code[u..u + 4];
    }
  }

  // ----- lists in the code

  /** Every live link lies in the code and holds the address of the next one. */
  ghost predicate Threaded(code: seq<Byte>, next: Links) {
    |code| < 0x8000_0000 && LinksOk(next) && forall t | t in next :: t + 4 <= |code| && WordAt(code, t) == next[t]
  }

  /** Resolving a list: every operand becomes the distance from the following instruction to the target. */
  function Resolve(code: seq<Byte>, l: seq<nat>, a: int): (r: seq<Byte>)
    requires forall i | 0 <= i < |l| :: l[i] + 4 <= |code|
    ensures |r| == |code|
    decreases |l|
  {
    if l == [] then code
    else
      assert forall i | 0 <= i < |l[1..]| :: l[1..][i] == l[i + 1];
      Resolve(Patch(code, l[0], a - l[0] - 4), l[1..], a)
  }

  ghost predicate SlotsApart(l: seq<nat>) {
    forall i: nat, j: nat | i < j < |l| :: l[i] + 4 <= l[j] || l[j] + 4 <= l[i]
  }

  /** Where a jump whose operand is at t goes. */
  function Target(code: seq<Byte>, t: nat): nat
    requires t + 4 <= |code|
  {
    (t + 4 + WordAt(code, t)) % TWO32
  }

  /** The jump whose operand is at t goes to a. */
  predicate Reaches(code: seq<Byte>, t: nat, a: int) {
    t + 4 <= |code| && Target(code, t) == a % TWO32
  }

  lemma TargetIs(t: nat, a: int, w: nat)
    requires w == (a - t - 4) % TWO32
    ensures (t + 4 + w) % TWO32 == a % TWO32
  {
    var q := (a - t - 4) / TWO32;
    assert a - t - 4 == TWO32 * q + w;
    assert a == TWO32 * q + (t + 4 + w);
  }

  /** Byte k is in no operand of the list. */
  ghost predicate Outside(l: seq<nat>, k: int) {
    forall i: nat | i < |l| :: !(l[i] <= k < l[i] + 4)
  }

  /** Resolving changes only the list's operands. */
  lemma {:induction false} ResolveKeeps(code: seq<Byte>, l: seq<nat>, a: int, k: nat)
    requires (forall i | 0 <= i < |l| :: l[i] + 4 <= |code|) && k < |code| && Outside(l, k)
    ensures Resolve(code, l, a)[k] == code[k]
    decreases |l|
  {
    if l != [] {
      var m := l[1..];
      assert forall i | 0 <= i < |m| :: m[i] == l[i + 1];
      ResolveKeeps(Patch(code, l[0], a - l[0] - 4), m, a, k);
    }
  }

  /** Other operands keep their values. */
  lemma ResolveKeepsWord(code: seq<Byte>, l: seq<nat>, a: int, u: nat)
    requires (forall i | 0 <= i < |l| :: l[i] + 4 <= |code|) && u + 4 <= |code|
    requires forall i: nat | i < |l| :: u + 4 <= l[i] || l[i] + 4 <= u
    ensures WordAt(Resolve(code, l, a), u) == WordAt(code, u)
  {
    var r := Resolve(code, l, a);
    forall k | u <= k < u + 4 ensures r[k] == code[k] { ResolveKeeps(code, l, a, k); }
    assert r[u..u + 4] == code[u..u + 4];
  }

  /** Resolving does what it is for: every jump of the list reaches the target. */
  lemma {:induction false} Resolved(code: seq<Byte>, l: seq<nat>, a: int, i: nat)
    requires (forall j | 0 <= j < |l| :: l[j] + 4 <= |code|) && SlotsApart(l) && i < |l|
    ensures Target(Resolve(code, l, a), l[i]) == a % TWO32
    decreases |l|
  {
    var t, m := l[0], l[1..];
    var c := Patch(code, t, a - t - 4);
    assert forall j | 0 <= j < |m| :: m[j] == l[j + 1];
    if i > 0 {
      Resolved(c, m, a, i - 1);
    } else {
      PatchAt(code, t, a - t - 4);
      ResolveKeepsWord(c, m, a, t);
      TargetIs(t, a, WordAt(c, t));
    }
  }

  /** The links of a list do not overlap. */
  lemma ListSlotsApart(next: Links, t: nat, l: seq<nat>)
    requires LinksOk(next) && ListFrom(next, t, l)
    ensures SlotsApart(l)
  {
    ListMembers(next, t, l);
    forall i: nat, j: nat | i < j < |l| ensures l[i] + 4 <= l[j] || l[j] + 4 <= l[i] { ListDistinct(next, t, l, i, j); }
  }

  // ----- the code generator

  class CodeGen {
    var data: array<Byte>
    var ind: nat
    ghost var next: Links

    constructor ()
      ensures Valid() && Code() == [] && next == map[] && fresh(data)
    {
      data := new Byte[1](_ => 0);
      ind, next := 0, map[];
    }

    ghost function Code(): seq<Byte>
      requires ind <= data.Length
      reads this, data
    {
      data[..ind]
    }

    ghost predicate Valid()
      reads this, data
    {
      ind <= data.Length && Threaded(data[..ind], next)
    }

    /** Makes room for newSize bytes: the buffer doubles and keeps its contents. */
    method Reserve(newSize: nat)
      requires ind <= data.Length
      modifies this`data
      ensures ind <= data.Length && newSize <= data.Length && Code() == old(Code())
      ensures data == old(data) || fresh(data)
    {
      if newSize <= data.Length { return; }
      var size := if data.Length == 0 then 1 else data.Length;
      while size < newSize
        invariant size >= 1 && size >= data.Length
        decreases newSize - size
      {
        size := size * 2;
      }
      var bigger := new Byte[size](_ => 0);
      var i := 0;
      while i < data.Length
        invariant i <= data.Length <= bigger.Length && bigger[..i] == data[..i] && fresh(bigger) && data == old(data)
        modifies bigger
      {
        bigger[i] := data[i];
        i := i + 1;
      }
      assert bigger[..ind] == bigger[..i][..ind] == data[..i][..ind];
      data := bigger;
    }

    /** Emits the low byte of c. */
    method G(c: nat)
      requires ind <= data.Length
      modifies this`data, this`ind, data
      ensures ind <= data.Length && Code() == old(Code()) + [c % 256]
      ensures data == old(data) || fresh(data)
    {
      Reserve(ind + 1);
      data[ind] := c % 256;
      ind := ind + 1;
      assert data[..ind] == data[..ind - 1] + [c % 256];
    }

    /** Emits an opcode, low byte first, without leading zero bytes. */
    method O(c: nat)
      requires ind <= data.Length
      modifies this`data, this`ind, data
      ensures ind <= data.Length && Code() == old(Code()) + OpBytes(c)
      ensures data == old(data) || fresh(data)
    {
      var r := c;
      ghost var was, done := Code(), [];
      while r > 0
        invariant ind <= data.Length && Code() == was + done && done + OpBytes(r) == OpBytes(c) &&
                  (data == old(data) || fresh(data))
      {
        G(r);
        done := done + [r % 256];
        r := r / 256;
      }
      assert done + [] == done;
    }

    /** Writes the operand at t in place. */
    method Store32(t: nat, v: int)
      requires t + 4 <= ind <= data.Length
      modifies data
      ensures Code() == Patch(old(Code()), t, v)
    {
      ghost var was := Code();
      var w := v % TWO32;
      data[t] := w % 256;
      data[t + 1] := w / 256 % 256;
      data[t + 2] := w / 0x1_0000 % 256;
      data[t + 3] := w / 0x100_0000;
      assert data[t..t + 4] == Bytes32(v);
      assert data[..t] == was[..t] && data[t + 4..ind] == was[t + 4..];
      assert data[..ind] == data[..t] + data[t..t + 4] + data[t + 4..ind];
    }

    /** Reads the operand at t. */
    method Load32(t: nat) returns (w: nat)
      requires t + 4 <= ind <= data.Length
      ensures w == WordAt(Code(), t)
    {
      var b0: nat, b1: nat, b2: nat, b3: nat := data[t], data[t + 1], data[t + 2], data[t + 3];
      assert data[..ind][t..t + 4] == [data[t], data[t + 1], data[t + 2], data[t + 3]];
      w := b0 + 256 * b1 + 0x1_0000 * b2 + 0x100_0000 * b3;
    }

    /** An instruction and its operand; the operand's address is returned. */
    method Oad(c: nat, s: int) returns (t: nat)
      requires ind <= data.Length
      modifies this`data, this`ind, data
      ensures ind <= data.Length && Code() == old(Code()) + OpBytes(c) + Bytes32(s) && t == old(ind) + |OpBytes(c)|
      ensures data == old(data) || fresh(data)
    {
      O(c);
      Reserve(ind + 4);
      ghost var was := Code();
      t := ind;
      ind := ind + 4;
      ghost var all := Code();
      assert all[..t] == was;
      Store32(t, s);
      assert Patch(all, t, s) == was + Bytes32(s) + [];
    }

    /** Emits a jump whose target is not known yet and puts it at the front of list t. */
    method Jump(c: nat, t: nat, ghost l: seq<nat>, ghost other: nat) returns (s: nat)
      requires Valid() && c > 0 && IsList(next, t, l) && ind + |OpBytes(c)| + 4 < 0x8000_0000
      modifies this, data
      ensures Valid() && (data == old(data) || fresh(data))
      ensures s == old(ind) + |OpBytes(c)| && next == old(next)[s := t] && IsList(next, s, [s] + l)
      ensures Code() == old(Code()) + OpBytes(c) + Bytes32(t) && OthersKept(old(next), next, t, other)
    {
      ghost var was := Code();
      HeadSmall(was, next, t);
      s := Oad(c, t);
      OpBytesSome(c);
      NewLink(next, s, t, l);
      NewLinkKeeps(next, s, t, l, other);
      JumpThreads(was, OpBytes(c), next, s, t);
      next := next[s := t];
    }

    /** One jump is patched; the address of the next one is returned. */
    method PatchOne(p: nat, a: int, ghost l: seq<nat>, ghost k: nat) returns (n: nat)
      requires ind <= data.Length && k < |l| && p == l[k] && RestIn(l, k, ind) && SlotsApart(l)
      modifies data
      ensures n == WordAt(old(Code()), p) && RestIn(l, k + 1, ind)
      ensures Resolve(Code(), l[k + 1..], a) == Resolve(old(Code()), l[k..], a)
      ensures forall j: nat | k < j < |l| :: WordAt(Code(), l[j]) == WordAt(old(Code()), l[j])
    {
      ghost var c := Code();
      n := Load32(p);
      Store32(p, a - p - 4);
      PatchAt(c, p, a - p - 4);
      ResolveStep(c, l, k, a);
    }

    /** The loop that patches a list, given where its links lie. */
    method PatchList(t: nat, a: int, ghost l: seq<nat>)
      requires Valid() && ListFrom(next, t, l)
      modifies data
      ensures (forall i | 0 <= i < |l| :: l[i] + 4 <= ind) && Code() == Resolve(old(Code()), l, a)
    {
      ghost var was := Code();
      ListMembers(next, t, l);
      ListSlotsApart(next, t, l);
      var p := t;
      ghost var k: nat := 0;
      assert l[0..] == l;
      assert forall i: nat | i < |l| :: l[i] + 4 <= ind;
      while p != 0
        invariant k <= |l| && p == (if k < |l| then l[k] else 0)
        invariant RestIn(l, k, ind) && Resolve(Code(), l[k..], a) == Resolve(was, l, a)
        invariant forall j: nat | k <= j < |l| :: WordAt(Code(), l[j]) == WordAt(was, l[j])
        decreases |l| - k
      {
        ListRest(next, t, l, k);
        p := PatchOne(p, a, l, k);
        k := k + 1;
      }
      assert l[k..] == [];
    }

    /** Patches every jump of list t to go to a. */
    method GsymAddr(t: nat, a: int, ghost l: seq<nat>, ghost other: nat)
      requires Valid() && IsList(next, t, l)
      modifies data, this`next
      ensures Valid() && next == Without(old(next), l) && OthersKept(old(next), next, other, t)
      ensures forall i: nat | i < |l| :: Reaches(Code(), l[i], a)
      ensures forall k: nat | k < ind && Outside(l, k) :: Code()[k] == old(Code())[k]
    {
      ghost var was := Code();
      ListSlotsApart(next, t, l);
      PatchList(t, a, l);
      forall i: nat | i < |l| ensures Reaches(Code(), l[i], a) { Resolved(was, l, a, i); }
      forall j: nat | j < ind && Outside(l, j) ensures Code()[j] == was[j] { ResolveKeeps(was, l, a, j); }
      ResolveThreads(was, next, t, l, a);
      DropKeeps(next, t, l, other);
      next := Without(next, l);
    }

    /** Appends list t to list c: the operand of c's last jump gets t. */
    method Append(c: nat, t: nat, ghost l: seq<nat>, ghost r: seq<nat>) returns (h: nat)
      requires Valid() && IsList(next, c, l) && IsList(next, t, r) && (c != 0 ==> c != t)
      modifies data, this`next
      ensures Valid() && IsList(next, h, l + r) && OthersKept(old(next), next, t, c)
      ensures h == (if c == 0 then t else c) && next.Keys == old(next).Keys
      ensures forall k: nat | k < ind && Outside(l, k) :: Code()[k] == old(Code())[k]
    {
      if c == 0 {
        assert l + r == r;
        return t;
      }
      h := c;
      var p := LastLink(c, l);
      JoinLists(next, c, l, t, r);
      JoinKeeps(next, c, l, t, r);
      HeadSmall(Code(), next, t);
      PatchThreads(Code(), next, p, t);
      PatchAt(Code(), p, t);
      Store32(p, t);
      next := next[p := t];
    }

    /** The last link of a list. */
    method LastLink(c: nat, ghost l: seq<nat>) returns (p: nat)
      requires Valid() && ListFrom(next, c, l) && l != []
      ensures p == l[|l| - 1] && p in next
    {
      p := c;
      ghost var k: nat := 0;
      ListRest(next, c, l, 0);
      var n := Load32(p);
      while n != 0
        invariant k < |l| && p == l[k] && p in next && n == (if k + 1 < |l| then l[k + 1] else 0)
        decreases |l| - k
      {
        p := n;
        k := k + 1;
        ListRest(next, c, l, k);
        n := Load32(p);
      }
      if k + 1 < |l| { ListRest(next, c, l, k + 1); }
    }

    /** Patches every jump of list t to come here. */
    method Gsym(t: nat, ghost l: seq<nat>)
      requires Valid() && IsList(next, t, l)
      modifies data, this`next
      ensures Valid() && next == Without(old(next), l) && OthersKept(old(next), next, t, t)
      ensures forall i: nat | i < |l| :: Reaches(Code(), l[i], ind)
      ensures forall k: nat | k < ind && Outside(l, k) :: Code()[k] == old(Code())[k]
    {
      GsymAddr(t, ind, l, t);
    }

    /** The jump that goes when the pending list does not: it is put on list t, and the pending jumps come behind it. */
    method JumpAround(c: nat, t: nat, ghost l: seq<nat>, ghost lc: seq<nat>) returns (s: nat)
      requires Valid() && IsList(next, t, l) && IsList(next, c, lc) && (c != 0 ==> c != t) && ind + 8 < 0x8000_0000
      modifies this, data
      ensures Valid() && (data == old(data) || fresh(data)) && IsList(next, s, [s] + l) &&
              OthersKept(old(next), next, t, c)
      ensures next == Without(old(next)[s := t], lc) && forall i: nat | i < |lc| :: Reaches(Code(), lc[i], ind)
      ensures Tested([0xe9], old(Code()), Code(), old(next), next, lc, s)
    {
      ghost var was, code := next, Code();
      OpByte(0xe9);
      ListMembers(next, c, lc);
      s := Jump(0xe9, t, l, t);
      ghost var mid, code' := next, Code();
      assert IsList(mid, c, lc);
      Gsym(c, lc);
      KeptTwice(was, mid, next, t, c);
      OldBytes(code, code', Code(), was, next, lc, s);
    }

    /**
     * Generates a test: control goes through list h when the value differs from inv, and otherwise comes to the end of
     * the code. What the test's own pending jumps do depends on whether they go when the value is true or when it is
     * false. No other byte of the code changes.
     */
    method Gtst(test: Test, inv: nat, t: nat, ghost l: seq<nat>, ghost lc: seq<nat>)
        returns (h: nat, ghost l': seq<nat>)
      requires Valid() && IsList(next, t, l) && inv < 2 && ind + 16 < 0x8000_0000 && TestOk(test)
      requires if test.Jumps? then IsList(next, test.c, lc) && (test.c != 0 ==> test.c != t) else lc == []
      modifies this, data
      ensures Valid() && (data == old(data) || fresh(data)) && IsList(next, h, l')
      ensures OthersKept(old(next), next, t, if test.Jumps? then test.c else t)
      ensures l' == (if TestBytes(test, inv) != [] then [h] + l else if test.Jumps? then lc + l else l)
      ensures TestBytes(test, inv) != [] && test.Jumps? ==> AllReach(Code(), next, lc, ind)
      ensures TestBytes(test, inv) == [] ==> h == t || (test.Jumps? && h == test.c)
      ensures Tested(TestBytes(test, inv), old(Code()), Code(), old(next), next, lc, h)
      ensures forall s: State, b: bool | Truth(test, s, b) :: Decided(test, inv, Code(), old(ind), l', lc, s, b)
    {
      hide IsList, OthersKept, Threaded, Tested, Reaches, AllReach, Decided, Truth;
      ghost var was := Code();
      match test {
      case Compare(tok) =>
        G(0x0f);
        h := JumpBehind(Flip(tok - 16, inv), t, l, was, [0x0f]);
        l' := [h] + l;
      case Jumps(c, kind) =>
        if kind == inv {
          h := Append(c, t, lc, l);
          TestedNone(old(Code()), Code(), old(next), next, lc, h);
          l' := lc + l;
        } else {
          OpByte(0xe9);
          h := JumpAround(c, t, l, lc);
          Resolves(Code(), old(next)[h := t], lc, ind);
          l' := [h] + l;
        }
      case Constant(nonzero) =>
        if nonzero == (inv == 1) {
          h, l' := t, l;
          KeptAll(next, t);
          TestedNone(old(Code()), Code(), old(next), next, lc, h);
        } else {
          h := JumpBehind(0xe9, t, l, was, []);
          assert [] + OpBytes(0xe9) == OpBytes(0xe9);
          l' := [h] + l;
        }
      case Register(v) =>
        TestItself(v);
        h := JumpBehind(Flip(0x85, inv), t, l, was, [0x85, 0xc0 + v * 9, 0x0f]);
        l' := [h] + l;
      }
      forall s: State, b: bool | Truth(test, s, b) ensures Decided(test, inv, Code(), |was|, l', lc, s, b) {
        Decides(test, inv, was, Code(), old(next), next, h, l, l', lc, s, b);
      }
    }

    /** Tests a register against itself; the first byte of the conditional jump follows. */
    method TestItself(v: nat)
      requires ind <= data.Length && v < 8
      modifies this`data, this`ind, data
      ensures ind <= data.Length && Code() == old(Code()) + [0x85, 0xc0 + v * 9, 0x0f]
      ensures data == old(data) || fresh(data)
    {
      ghost var was := Code();
      O(0x85);
      O(0xc0 + v * 9);
      G(0x0f);
      OpByte(0x85);
      OpByte(0xc0 + v * 9);
      assert Code() == was + [0x85, 0xc0 + v * 9, 0x0f];
    }

    /** A jump put on list t, behind bytes that have just been emitted. */
    method JumpBehind(c: nat, t: nat, ghost l: seq<nat>, ghost was: seq<Byte>, ghost bytes: seq<Byte>) returns (h: nat)
      requires ind <= data.Length && Code() == was + bytes && Threaded(was, next) && |was| + |bytes| + 8 < 0x8000_0000
      requires IsList(next, t, l) && 0 < c < 256
      modifies this, data
      ensures Valid() && (data == old(data) || fresh(data)) && IsList(next, h, [h] + l) &&
              OthersKept(old(next), next, t, t)
      ensures Tested(bytes + OpBytes(c), was, Code(), old(next), next, [], h)
    {
      OpByte(c);
      EmitThreads(was, bytes, next);
      h := Jump(c, t, l, t);
      assert Code()[..h] == (was + bytes) + OpBytes(c);
      assert (was + bytes) + OpBytes(c) == was + (bytes + OpBytes(c));
      TestedJump(bytes + OpBytes(c), was, Code(), old(next), h, t);
    }
  }

  /** What is on top of the value stack: flags of a comparison, pending jumps, a constant, or a register. */
  datatype Test = Compare(tok: nat) | Jumps(c: nat, kind: nat) | Constant(nonzero: bool) | Register(v: nat)

  predicate TestOk(test: Test) {
    match test
    case Compare(tok) => IsComparison(tok)
    case Jumps(_, kind) => kind < 2
    case Constant(_) => true
    case Register(v) => v < 8
  }

  /** The bytes a test emits in front of its jump's operand; none when it has no jump of its own. */
  function TestBytes(test: Test, inv: nat): seq<Byte>
    requires TestOk(test)
  {
    match test
    case Compare(tok) => [0x0f] + OpBytes(Flip(tok - 16, inv))
    case Jumps(_, kind) => if kind == inv then [] else OpBytes(0xe9)
    case Constant(nonzero) => if nonzero == (inv == 1) then [] else OpBytes(0xe9)
    case Register(v) => [0x85, 0xc0 + v * 9, 0x0f] + OpBytes(Flip(0x85, inv))
  }

  /** The value of a test, before its code is run: pending jumps do not show it. */
  predicate Truth(test: Test, s: State, b: bool) {
    |s.regs| == 8 &&
    match test
    case Compare(tok) => tok >= 0x90 && b == Cond(tok - 0x90, s.flags)
    case Jumps(_, _) => true
    case Constant(nonzero) => b == nonzero
    case Register(v) => v < 8 && b == (s.regs[v] != 0)
  }

  /**
   * A value b that differs from inv sends control through a jump of list l, and another one to the end of the code.
   * Pending jumps lc of even kind have been taken when the value is true, and of odd kind when it is false; then
   * control is with them, and otherwise at the start of the test's own code.
   */
  ghost predicate Decided(test: Test, inv: nat, code: seq<Byte>, from: nat, l: seq<nat>, lc: seq<nat>, s: State,
      b: bool) {
    if test.Jumps? && b == (test.kind == 0) then
      forall i: nat | i < |lc| :: if b == (inv == 1) then Reaches(code, lc[i], |code|) else lc[i] in l
    else if b == (inv == 1) then
      forall o: Outcome :: Leaves(code, from, |code|, s, o) <==> o == Falls
    else
      l != [] && forall o: Outcome :: Leaves(code, from, |code|, s, o) <==> o == Taken(l[0])
  }

  /** A test's own code, entered from the start. */
  lemma Leads(test: Test, inv: nat, code: seq<Byte>, at: nat, s: State, b: bool, o: Outcome)
    requires TestOk(test) && inv < 2 && Truth(test, s, b) && TestBytes(test, inv) != []
    requires at + |TestBytes(test, inv)| + 4 == |code|
    requires forall k: nat | k < |TestBytes(test, inv)| :: code[at + k] == TestBytes(test, inv)[k]
    ensures Leaves(code, at, |code|, s, o) <==>
            o == if !test.Jumps? && b == (inv == 1) then Falls else Taken(at + |TestBytes(test, inv)|)
  {
    hide Leaves, Cond;
    var bytes := TestBytes(test, inv);
    assert code[at] == bytes[0];
    match test
    case Compare(tok) =>
      OpByte(Flip(tok - 16, inv));
      assert code[at + 1] == bytes[1];
      CondFlips(tok - 0x90, s.flags);
      JccLeaves(code, at, Flip(tok - 16, inv) - 0x80, s, o);
    case Register(v) =>
      OpByte(Flip(0x85, inv));
      assert code[at + 1] == bytes[1] && code[at + 2] == bytes[2] && code[at + 3] == bytes[3];
      TestLeaves(code, at, v, Flip(0x85, inv) - 0x80, s, o);
    case _ =>
      OpByte(0xe9);
      JmpLeaves(code, at, s, o);
  }

  lemma Decides(test: Test, inv: nat, code: seq<Byte>, code': seq<Byte>, next: Links, next': Links, h: nat, l: seq<nat>,
      l': seq<nat>, lc: seq<nat>, s: State, b: bool)
    requires TestOk(test) && inv < 2 && Truth(test, s, b)
    requires l' == (if TestBytes(test, inv) != [] then [h] + l else if test.Jumps? then lc + l else l)
    requires TestBytes(test, inv) != [] && test.Jumps? ==> AllReach(code', next', lc, |code'|)
    requires Tested(TestBytes(test, inv), code, code', next, next', lc, h)
    ensures Decided(test, inv, code', |code|, l', lc, s, b)
  {
    hide Leaves, Cond;
    var bytes, at := TestBytes(test, inv), |code|;
    if bytes != [] {
      forall k: nat | k < |bytes| ensures code'[at + k] == bytes[k] { assert code'[at..h][k] == bytes[k]; }
      forall o: Outcome
        ensures Leaves(code', at, |code'|, s, o) <==> o == if !test.Jumps? && b == (inv == 1) then Falls else Taken(h)
      {
        Leads(test, inv, code', at, s, b, o);
      }
      if test.Jumps? { OpBytesSome(0xe9); }
    } else {
      forall o: Outcome ensures Leaves(code', at, |code'|, s, o) <==> o == Falls { NothingLeaves(code', s, o); }
    }
  }

  /** c ^ inv */
  function Flip(c: nat, inv: nat): nat
  {
    if inv == 0 then c else if c % 2 == 0 then c + 1 else c - 1
  }

  /** Every jump of l goes to a and is no longer a link. */
  ghost predicate AllReach(code: seq<Byte>, next: Links, l: seq<nat>, a: int) {
    forall i: nat | i < |l| :: Reaches(code, l[i], a) && l[i] !in next
  }

  /** The bytes b and the operand h have been appended, or nothing; before them only operands of l have changed. */
  ghost predicate Tested(b: seq<Byte>, code: seq<Byte>, code': seq<Byte>, next: Links, next': Links, l: seq<nat>,
      h: nat) {
    |code| <= |code'| &&
    (if b == [] then |code'| == |code| else h == |code| + |b| && |code'| == h + 4 && code'[|code|..h] == b) &&
    (forall k: nat | k < |code| && Outside(l, k) :: code'[k] == code[k]) &&
    forall x | x in next' :: x in next || x == h >= |code|
  }

  /** A jump has been emitted and a list resolved. */
  lemma OldBytes(code: seq<Byte>, mid: seq<Byte>, code': seq<Byte>, next: Links, next': Links, l: seq<nat>, s: nat)
    requires s == |code| + 1 && |mid| == s + 4 == |code'| && mid[..s] == code + [0xe9]
    requires forall i: nat | i < |l| :: l[i] + 4 <= |code|
    requires forall k: nat | k < |mid| && Outside(l, k) :: code'[k] == mid[k]
    requires forall x | x in next' :: x in next || x == s
    ensures Tested([0xe9], code, code', next, next', l, s)
  {
    assert Outside(l, |code|) && mid[|code|] == mid[..s][|code|];
    assert code'[|code|..s] == [0xe9];
    forall k: nat | k < |code| && Outside(l, k) ensures code'[k] == code[k] { assert mid[k] == mid[..s][k]; }
  }

  lemma TestedJump(b: seq<Byte>, code: seq<Byte>, code': seq<Byte>, next: Links, h: nat, t: nat)
    requires b != [] && h == |code| + |b| && |code'| == h + 4 && code'[..h] == code + b
    ensures Tested(b, code, code', next, next[h := t], [], h)
  {
    assert code'[|code|..h] == code'[..h][|code|..];
    forall k: nat | k < |code| ensures code'[k] == code[k] { assert code'[k] == code'[..h][k]; }
  }

  lemma TestedNone(code: seq<Byte>, code': seq<Byte>, next: Links, next': Links, l: seq<nat>, h: nat)
    requires |code'| == |code| && next'.Keys == next.Keys
    requires forall k: nat | k < |code| && Outside(l, k) :: code'[k] == code[k]
    ensures Tested([], code, code', next, next', l, h)
  {
    forall x | x in next' ensures x in next { assert x in next'.Keys; }
  }

  lemma Resolves(code: seq<Byte>, next: Links, l: seq<nat>, a: int)
    requires forall i: nat | i < |l| :: Reaches(code, l[i], a)
    ensures AllReach(code, Without(next, l), l, a)
  {
  }

  lemma OpByte(c: nat)
    requires 0 < c < 256
    ensures OpBytes(c) == [c]
  {
    assert OpBytes(c / 256) == [];
  }

  lemma EmitThreads(code: seq<Byte>, more: seq<Byte>, next: Links)
    requires Threaded(code, next) && |code| + |more| < 0x8000_0000
    ensures Threaded(code + more, next)
  {
    forall u | u in next ensures WordAt(code + more, u) == next[u] { assert (code + more)[u..u + 4] == code[u..u + 4]; }
  }

  lemma KeptAll(next: Links, t: nat)
    ensures OthersKept(next, next, t, t)
  {
  }

  lemma KeptTwice(a: Links, b: Links, c: Links, t: nat, x: nat)
    requires OthersKept(a, b, t, t) && OthersKept(b, c, x, x)
    ensures OthersKept(a, c, t, x)
  {
    forall h: nat, m: seq<nat> | h != t && h != x && IsList(a, h, m) ensures IsList(c, h, m) { assert IsList(b, h, m); }
  }

  ghost predicate RestIn(l: seq<nat>, k: nat, n: nat) {
    k <= |l| && forall i: nat | k <= i < |l| :: l[i] + 4 <= n
  }

  lemma ResolveStep(code: seq<Byte>, l: seq<nat>, k: nat, a: int)
    requires k < |l| && RestIn(l, k, |code|)
    ensures RestIn(l, k + 1, |code|) && l[k] + 4 <= |code|
    ensures Resolve(Patch(code, l[k], a - l[k] - 4), l[k + 1..], a) == Resolve(code, l[k..], a)
  {
    assert l[k..][0] == l[k] && l[k..][1..] == l[k + 1..];
  }

  function OpBytes(c: nat): seq<Byte> {
    if c == 0 then [] else [c % 256] + OpBytes(c / 256)
  }

  lemma OpBytesSome(c: nat)
    requires c > 0
    ensures |OpBytes(c)| >= 1
  {
  }

  lemma HeadSmall(code: seq<Byte>, next: Links, t: nat)
    requires Threaded(code, next) && Head(next, t)
    ensures t % TWO32 == t
  {
  }

  lemma JumpThreads(code: seq<Byte>, op: seq<Byte>, next: Links, s: nat, t: nat)
    requires Threaded(code, next) && Head(next, t) && |code| + |op| + 4 < 0x8000_0000 && s == |code| + |op| &&
             LinksOk(next[s := t])
    ensures Threaded(code + op + Bytes32(t), next[s := t])
  {
    var code' := code + op + Bytes32(t);
    HeadSmall(code, next, t);
    WordOfBytes(t);
    assert code'[s..s + 4] == Bytes32(t);
    forall u | u in next[s := t] ensures u + 4 <= |code'| && WordAt(code', u) == next[s := t][u] {
      if u != s { assert code'[u..u + 4] == code[u..u + 4]; }
    }
  }

  lemma PatchThreads(code: seq<Byte>, next: Links, p: nat, t: nat)
    requires Threaded(code, next) && p in next && t % TWO32 == t && LinksOk(next[p := t])
    ensures Threaded(Patch(code, p, t), next[p := t])
  {
    PatchAt(code, p, t);
  }

  lemma ResolveThreads(code: seq<Byte>, next: Links, t: nat, l: seq<nat>, a: int)
    requires Threaded(code, next) && IsList(next, t, l)
    ensures (forall i | 0 <= i < |l| :: l[i] + 4 <= |code|) && Threaded(Resolve(code, l, a), Without(next, l))
  {
    ListMembers(next, t, l);
    DropList(next, t, l);
    forall u | u in Without(next, l) ensures WordAt(Resolve(code, l, a), u) == next[u] {
      ResolveKeepsWord(code, l, a, u);
    }
  }
}
