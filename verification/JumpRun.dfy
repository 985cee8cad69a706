/** Whole runs of the code generator: any mixture of emitting, testing, joining lists and resolving them. */
module JumpRun {
  import opened Bits
  import opened LinkedJumps
  import opened JumpPatch

  /**
   * What a run has done so far, without the code: how many bytes there are, which jumps are pending in which list,
   * where every resolved jump goes, and the bytes that are no jump's operand.
   */
  datatype Plan = Plan(size: nat, lists: seq<seq<nat>>, done: map<nat, nat>, fixed: map<nat, Byte>)

  /** Lists are numbered in the order in which they are opened; a test's own pending jumps are a list's number. */
  datatype Op =
    | Open
    | Emit(c: nat)
    | Goto(i: nat)
    | Branch(test: Test, inv: nat, i: nat)
    | Land(i: nat)
    | LandAt(i: nat, a: int)

  predicate OpOk(op: Op, n: nat) {
    match op
    case Open => true
    case Emit(_) => true
    case Goto(i) => i < n
    case Branch(test, inv, i) => i < n && inv < 2 && TestOk(test) && (test.Jumps? ==> test.c < n && test.c != i)
    case Land(i) => i < n
    case LandAt(i, _) => i < n
  }

  function Placed(at: nat, b: seq<Byte>): (m: map<nat, Byte>)
    ensures forall k: nat :: k in m <==> at <= k < at + |b|
    ensures forall k | k in m :: m[k] == b[k - at]
  {
    if b == [] then map[] else Placed(at, b[..|b| - 1])[at + |b| - 1 := b[|b| - 1]]
  }

  function Sent(l: seq<nat>, a: int): map<nat, nat> {
    map t | t in l :: a % TWO32
  }

  /** Some bytes and a jump, which goes to the front of list i. */
  function Jumped(p: Plan, b: seq<Byte>, i: nat): (q: Plan)
    requires i < |p.lists|
    ensures |q.lists| == |p.lists|
  {
    var s := p.size + |b|;
    Plan(s + 4, p.lists[i := [s] + p.lists[i]], p.done, p.fixed + Placed(p.size, b))
  }

  /** List i is resolved. */
  function Send(p: Plan, i: nat, a: int): (q: Plan)
    requires i < |p.lists|
    ensures |q.lists| == |p.lists|
  {
    Plan(p.size, p.lists[i := []], p.done + Sent(p.lists[i], a), p.fixed)
  }

  function Step(p: Plan, op: Op): (q: Plan)
    requires OpOk(op, |p.lists|)
    ensures |q.lists| == |p.lists| + (if op.Open? then 1 else 0) && p.size <= q.size
  {
    match op
    case Open => p.(lists := p.lists + [[]])
    case Emit(c) => p.(size := p.size + 1, fixed := p.fixed + Placed(p.size, [c % 256]))
    case Goto(i) => Jumped(p, OpBytes(0xe9), i)
    case Branch(test, inv, i) =>
      var b := TestBytes(test, inv);
      if b == [] then
        if test.Jumps? then p.(lists := p.lists[test.c := []][i := p.lists[test.c] + p.lists[i]]) else p
      else
        var q := Jumped(p, b, i);
        if test.Jumps? then Send(q, test.c, q.size) else q
    case Land(i) => Send(p, i, p.size)
    case LandAt(i, a) => Send(p, i, a)
  }

  function Opened(ops: seq<Op>): nat {
    if ops == [] then 0 else Opened(ops[..|ops| - 1]) + (if ops[|ops| - 1].Open? then 1 else 0)
  }

  /** Every list is opened before it is used. */
  predicate Legal(ops: seq<Op>) {
    ops == [] || (Legal(ops[..|ops| - 1]) && OpOk(ops[|ops| - 1], Opened(ops[..|ops| - 1])))
  }

  function PlanOf(ops: seq<Op>): (p: Plan)
    requires Legal(ops)
    ensures |p.lists| == Opened(ops)
  {
    if ops == [] then Plan(0, [], map[], map[]) else Step(PlanOf(ops[..|ops| - 1]), ops[|ops| - 1])
  }

  lemma {:induction false} LegalPrefix(ops: seq<Op>, k: nat)
    requires Legal(ops) && k <= |ops|
    ensures Legal(ops[..k]) && PlanOf(ops[..k]).size <= PlanOf(ops).size
    decreases |ops|
  {
    if k < |ops| {
      var front := ops[..|ops| - 1];
      LegalPrefix(front, k);
      assert front[..k] == ops[..k];
    } else {
      assert ops[..k] == ops;
    }
  }

  // ----- no jump is lost

  /** The operands of all jumps, pending and resolved. */
  ghost function Operands(p: Plan): set<nat> {
    p.done.Keys + set l, t | l in p.lists && t in l :: t
  }

  /** The operand of the jump that an operation emits, if it emits one. */
  ghost function Emits(p: Plan, op: Op): set<nat> {
    match op
    case Goto(_) => {p.size + |OpBytes(0xe9)|}
    case Branch(test, inv, _) =>
      if TestOk(test) && TestBytes(test, inv) != [] then {p.size + |TestBytes(test, inv)|} else {}
    case _ => {}
  }

  lemma ListOperand(p: Plan, i: nat, t: nat)
    requires i < |p.lists| && t in p.lists[i]
    ensures t in Operands(p)
  {
  }

  lemma JumpedOperands(p: Plan, b: seq<Byte>, i: nat)
    requires i < |p.lists|
    ensures Operands(Jumped(p, b, i)) == Operands(p) + {p.size + |b|}
  {
    var q, s := Jumped(p, b, i), p.size + |b|;
    assert s in q.lists[i];
    forall t | t in Operands(p) ensures t in Operands(q) {
      if t !in p.done {
        var j: nat :| j < |p.lists| && t in p.lists[j];
        ListOperand(q, j, t);
      }
    }
    forall t | t in Operands(q) ensures t in Operands(p) || t == s {
      if t !in q.done {
        var j: nat :| j < |q.lists| && t in q.lists[j];
        if t != s { ListOperand(p, j, t); }
      }
    }
  }

  lemma SentOperands(p: Plan, i: nat, a: int)
    requires i < |p.lists|
    ensures Operands(Send(p, i, a)) == Operands(p)
  {
    var q := Send(p, i, a);
    forall t | t in Operands(p) ensures t in Operands(q) {
      if t !in q.done {
        var j: nat :| j < |p.lists| && t in p.lists[j];
        ListOperand(q, j, t);
      }
    }
    forall t | t in Operands(q) ensures t in Operands(p) {
      if t !in p.done {
        if t in p.lists[i] {
          ListOperand(p, i, t);
        } else {
          var j: nat :| j < |q.lists| && t in q.lists[j];
          ListOperand(p, j, t);
        }
      }
    }
  }

  lemma JoinedOperands(p: Plan, q: Plan, i: nat, j: nat)
    requires i < |p.lists| && j < |p.lists| && i != j
    requires q == p.(lists := p.lists[j := []][i := p.lists[j] + p.lists[i]])
    ensures Operands(q) == Operands(p)
  {
    forall t | t in Operands(p) ensures t in Operands(q) {
      if t !in p.done {
        var k: nat :| k < |p.lists| && t in p.lists[k];
        ListOperand(q, if k == j then i else k, t);
      }
    }
    forall t | t in Operands(q) ensures t in Operands(p) {
      if t !in q.done {
        var k: nat :| k < |q.lists| && t in q.lists[k];
        ListOperand(p, if k == i && t in p.lists[j] then j else k, t);
      }
    }
  }

  /** An operation keeps every jump that was there, pending or resolved, and adds the one it emits. */
  lemma NoneLost(p: Plan, op: Op)
    requires OpOk(op, |p.lists|)
    ensures Operands(Step(p, op)) == Operands(p) + Emits(p, op)
  {
    match op
    case Open =>
      forall t | t in Operands(p) ensures t in Operands(Step(p, op)) {
        if t !in p.done {
          var j: nat :| j < |p.lists| && t in p.lists[j];
          ListOperand(Step(p, op), j, t);
        }
      }
    case Emit(c) =>
    case Goto(i) => JumpedOperands(p, OpBytes(0xe9), i);
    case Branch(test, inv, i) =>
      var b := TestBytes(test, inv);
      if b == [] {
        if test.Jumps? { JoinedOperands(p, Step(p, op), i, test.c); }
      } else {
        JumpedOperands(p, b, i);
        var q := Jumped(p, b, i);
        if test.Jumps? { SentOperands(q, test.c, q.size); }
      }
    case Land(i) => SentOperands(p, i, p.size);
    case LandAt(i, a) => SentOperands(p, i, a);
  }

  // ----- the code follows the plan

  ghost predicate HeadsDiffer(heads: seq<nat>) {
    forall a: nat, b: nat | a < b < |heads| :: heads[a] != heads[b] || heads[a] == 0
  }

  /** Every pending list is threaded through the code from its head. */
  ghost predicate Pending(next: Links, heads: seq<nat>, lists: seq<seq<nat>>) {
    |heads| == |lists| && HeadsDiffer(heads) && forall i: nat | i < |heads| :: IsList(next, heads[i], lists[i])
  }

  /** A resolved jump: it goes where it should, and no pending jump's operand touches its own. */
  ghost predicate Settled(code: seq<Byte>, next: Links, t: nat, a: int) {
    Reaches(code, t, a) && forall x | x in next :: t + 4 <= x || x + 4 <= t
  }

  /** A byte that belongs to no pending jump's operand. */
  ghost predicate Stays(code: seq<Byte>, next: Links, k: nat, b: Byte) {
    k < |code| && code[k] == b && forall x | x in next :: !(x <= k < x + 4)
  }

  ghost predicate InPlace(code: seq<Byte>, next: Links, p: Plan) {
    |code| == p.size && (forall t | t in p.done :: Settled(code, next, t, p.done[t])) &&
    forall k | k in p.fixed :: Stays(code, next, k, p.fixed[k])
  }

  /**
   * The code does what the plan says: pending jumps are linked into their lists, every resolved jump goes where it
   * was sent, and the bytes that are no jump's operand are as they were emitted.
   */
  ghost predicate Follows(g: CodeGen, p: Plan, heads: seq<nat>)
    reads g, g.data
  {
    g.Valid() && Pending(g.next, heads, p.lists) && InPlace(g.Code(), g.next, p)
  }

  /** A change of the code that touches only operands of l, and adds links only behind the old code. */
  ghost predicate Moves(code: seq<Byte>, code': seq<Byte>, next: Links, next': Links, l: seq<nat>) {
    |code| <= |code'| && (forall k: nat | k < |code| && Outside(l, k) :: code'[k] == code[k]) &&
    (forall x | x in next' :: x in next || x >= |code|) && forall i: nat | i < |l| :: l[i] in next
  }

  lemma SettledKept(code: seq<Byte>, code': seq<Byte>, next: Links, next': Links, l: seq<nat>, t: nat, a: int)
    requires Moves(code, code', next, next', l) && Settled(code, next, t, a)
    ensures Settled(code', next', t, a)
  {
    forall k: nat | t <= k < t + 4 ensures code'[k] == code[k] {
      forall i: nat | i < |l| ensures !(l[i] <= k < l[i] + 4) { assert l[i] in next; }
    }
    assert code'[t..t + 4] == code[t..t + 4];
  }

  lemma StaysKept(code: seq<Byte>, code': seq<Byte>, next: Links, next': Links, l: seq<nat>, k: nat, b: Byte)
    requires Moves(code, code', next, next', l) && Stays(code, next, k, b)
    ensures Stays(code', next', k, b)
  {
    forall i: nat | i < |l| ensures !(l[i] <= k < l[i] + 4) { assert l[i] in next; }
  }

  /** What was in place stays in place. */
  lemma Keeps(code: seq<Byte>, code': seq<Byte>, next: Links, next': Links, l: seq<nat>, p: Plan, q: Plan)
    requires Moves(code, code', next, next', l) && InPlace(code, next, p) && q.size == |code'|
    requires forall t | t in q.done :: (t in p.done && q.done[t] == p.done[t]) || Settled(code', next', t, q.done[t])
    requires forall k | k in q.fixed :: (k in p.fixed && q.fixed[k] == p.fixed[k]) || Stays(code', next', k, q.fixed[k])
    ensures InPlace(code', next', q)
  {
    forall t | t in q.done ensures Settled(code', next', t, q.done[t]) {
      if t in p.done && q.done[t] == p.done[t] { SettledKept(code, code', next, next', l, t, p.done[t]); }
    }
    forall k | k in q.fixed ensures Stays(code', next', k, q.fixed[k]) {
      if k in p.fixed && q.fixed[k] == p.fixed[k] { StaysKept(code, code', next, next', l, k, p.fixed[k]); }
    }
  }

  lemma NoJump(next: Links, m: seq<nat>)
    requires ListFrom(next, 0, m)
    ensures m == []
  {
  }

  lemma NilIsList(next: Links)
    ensures IsList(next, 0, [])
  {
  }

  lemma LinksOf(next: Links, h: nat, l: seq<nat>)
    requires IsList(next, h, l)
    ensures forall i: nat | i < |l| :: l[i] in next
  {
    ListMembers(next, h, l);
  }

  lemma SizeIs(code: seq<Byte>, next: Links, p: Plan)
    requires InPlace(code, next, p)
    ensures p.size == |code|
  {
  }

  /** Two of the lists have been used; one of them is empty now, the other one starts at h. */
  lemma PendingNext(next: Links, next': Links, heads: seq<nat>, lists: seq<seq<nat>>, i: nat, j: nat, h: nat,
      l: seq<nat>)
    requires Pending(next, heads, lists) && i < |heads| && j < |heads| && OthersKept(next, next', heads[i], heads[j])
    requires IsList(next', h, l) && (h == 0 || h == heads[i] || h == heads[j] || h !in next)
    ensures Pending(next', heads[j := 0][i := h], lists[j := []][i := l])
  {
    var heads', lists' := heads[j := 0][i := h], lists[j := []][i := l];
    NilIsList(next');
    forall k: nat | k < |heads'| ensures IsList(next', heads'[k], lists'[k]) {
      if k != i && k != j {
        assert IsList(next, heads[k], lists[k]);
        if heads[k] == 0 { NoJump(next, lists[k]); } else { Differ(heads, k, i); Differ(heads, k, j); }
      }
    }
    forall a: nat, b: nat | a < b < |heads'| ensures heads'[a] != heads'[b] || heads'[a] == 0 {
      Apart(next, heads, lists, i, j, h, a);
      Apart(next, heads, lists, i, j, h, b);
      Differ(heads, a, b);
    }
  }

  lemma Differ(heads: seq<nat>, a: nat, b: nat)
    requires HeadsDiffer(heads) && a < |heads| && b < |heads|
    ensures a != b ==> heads[a] != heads[b] || heads[a] == 0
  {
  }

  /** The new head is none of the heads that have stayed. */
  lemma Apart(next: Links, heads: seq<nat>, lists: seq<seq<nat>>, i: nat, j: nat, h: nat, k: nat)
    requires Pending(next, heads, lists) && i < |heads| && j < |heads| && k < |heads|
    requires h == 0 || h == heads[i] || h == heads[j] || h !in next
    ensures k != i && k != j ==> heads[k] != h || h == 0
  {
    Differ(heads, k, i);
    Differ(heads, k, j);
    assert IsList(next, heads[k], lists[k]);
  }

  // ----- the operations

  /** Jumps that have just been resolved are settled. */
  lemma NewSettled(code: seq<Byte>, code': seq<Byte>, next: Links, next': Links, l: seq<nat>, a: int, t: nat)
    requires Threaded(code, next) && Moves(code, code', next, next', l) && AllReach(code', next', l, a) && t in l
    ensures Settled(code', next', t, a % TWO32)
  {
    var i: nat :| i < |l| && l[i] == t;
    assert t in next && t !in next';
  }

  /** Bytes that have just been emitted stay. */
  lemma NewStays(b: seq<Byte>, code: seq<Byte>, code': seq<Byte>, next: Links, next': Links, l: seq<nat>, h: nat,
      k: nat)
    requires Threaded(code, next) && Tested(b, code, code', next, next', l, h) && |code| <= k < |code| + |b|
    ensures Stays(code', next', k, Placed(|code|, b)[k])
  {
    assert code'[k] == code'[|code|..h][k - |code|];
  }

  lemma TestMoves(b: seq<Byte>, code: seq<Byte>, code': seq<Byte>, next: Links, next': Links, l: seq<nat>, h: nat)
    requires Tested(b, code, code', next, next', l, h) && forall i: nat | i < |l| :: l[i] in next
    ensures Moves(code, code', next, next', l)
  {
  }

  /** A jump has been emitted behind the bytes b. */
  lemma JumpInPlace(b: seq<Byte>, code: seq<Byte>, code': seq<Byte>, next: Links, next': Links, h: nat, p: Plan, i: nat)
    requires Threaded(code, next) && InPlace(code, next, p) && i < |p.lists|
    requires b != [] && Tested(b, code, code', next, next', [], h)
    ensures InPlace(code', next', Jumped(p, b, i))
  {
    var q := Jumped(p, b, i);
    TestMoves(b, code, code', next, next', [], h);
    forall k | k in q.fixed && !(k in p.fixed && q.fixed[k] == p.fixed[k]) ensures Stays(code', next', k, q.fixed[k]) {
      NewStays(b, code, code', next, next', [], h, k);
    }
    Keeps(code, code', next, next', [], p, q);
  }

  /** A list has been resolved, perhaps behind a jump that has just been emitted. */
  lemma SendInPlace(b: seq<Byte>, code: seq<Byte>, code': seq<Byte>, next: Links, next': Links, l: seq<nat>, h: nat,
      a: int, p: Plan, q: Plan)
    requires Threaded(code, next) && InPlace(code, next, p) && Tested(b, code, code', next, next', l, h)
    requires AllReach(code', next', l, a) && forall i: nat | i < |l| :: l[i] in next
    requires q.size == |code'| && q.done == p.done + Sent(l, a) && q.fixed == p.fixed + Placed(|code|, b)
    ensures InPlace(code', next', q)
  {
    TestMoves(b, code, code', next, next', l, h);
    forall t | t in q.done && !(t in p.done && q.done[t] == p.done[t]) ensures Settled(code', next', t, q.done[t]) {
      NewSettled(code, code', next, next', l, a, t);
    }
    forall k | k in q.fixed && !(k in p.fixed && q.fixed[k] == p.fixed[k]) ensures Stays(code', next', k, q.fixed[k]) {
      NewStays(b, code, code', next, next', l, h, k);
    }
    Keeps(code, code', next, next', l, p, q);
  }

  /** A plain byte. */
  method DoEmit(g: CodeGen, c: nat, heads: seq<nat>, ghost p: Plan)
    requires Follows(g, p, heads) && g.ind + 16 < 0x8000_0000
    modifies g, g.data
    ensures Follows(g, Step(p, Emit(c)), heads) && (g.data == old(g.data) || fresh(g.data)) && g.ind == old(g.ind) + 1
  {
    ghost var code := g.Code();
    g.G(c);
    EmitThreads(code, [c % 256], g.next);
    EmitInPlace(code, g.Code(), g.next, p, c);
  }

  lemma EmitInPlace(code: seq<Byte>, code': seq<Byte>, next: Links, p: Plan, c: nat)
    requires Threaded(code, next) && InPlace(code, next, p) && code' == code + [c % 256]
    ensures InPlace(code', next, Step(p, Emit(c)))
  {
    var q := Step(p, Emit(c));
    Keeps(code, code', next, next, [], p, q);
  }

  method DoGoto(g: CodeGen, i: nat, heads: seq<nat>, ghost p: Plan) returns (heads': seq<nat>)
    requires Follows(g, p, heads) && i < |heads| && g.ind + 16 < 0x8000_0000
    modifies g, g.data
    ensures Follows(g, Step(p, Goto(i)), heads') && (g.data == old(g.data) || fresh(g.data))
  {
    hide IsList, OthersKept, Threaded, Tested, AllReach, InPlace, HeadsDiffer;
    ghost var code, next := g.Code(), g.next;
    SizeIs(code, next, p);
    assert code + [] == code && [] + OpBytes(0xe9) == OpBytes(0xe9);
    OpBytesSome(0xe9);
    var h := g.JumpBehind(0xe9, heads[i], p.lists[i], code, []);
    JumpInPlace(OpBytes(0xe9), code, g.Code(), next, g.next, h, p, i);
    NewLinkOutside(code, g.Code(), next, g.next, h, OpBytes(0xe9), []);
    PendingNext(next, g.next, heads, p.lists, i, i, h, [h] + p.lists[i]);
    heads' := heads[i := 0][i := h];
    assert p.lists[i := []][i := [h] + p.lists[i]] == Step(p, Goto(i)).lists;
  }

  /** The operand of a jump that has just been emitted is behind all links. */
  lemma NewLinkOutside(code: seq<Byte>, code': seq<Byte>, next: Links, next': Links, h: nat, b: seq<Byte>, l: seq<nat>)
    requires Threaded(code, next) && b != [] && Tested(b, code, code', next, next', l, h)
    ensures h !in next && h == |code| + |b| && |code'| == h + 4
  {
  }

  method DoLand(g: CodeGen, i: nat, a: int, heads: seq<nat>, ghost p: Plan) returns (heads': seq<nat>)
    requires Follows(g, p, heads) && i < |heads|
    modifies g, g.data
    ensures Follows(g, Send(p, i, a), heads') && (g.data == old(g.data) || fresh(g.data)) && g.ind == old(g.ind)
  {
    hide IsList, OthersKept, Threaded, Tested, AllReach, InPlace, HeadsDiffer;
    ghost var code, next, l := g.Code(), g.next, p.lists[i];
    SizeIs(code, next, p);
    LinksOf(next, heads[i], l);
    g.GsymAddr(heads[i], a, l, heads[i]);
    Resolves(g.Code(), next, l, a);
    NilIsList(g.next);
    LandTested(code, g.Code(), next, g.next, l);
    SendInPlace([], code, g.Code(), next, g.next, l, 0, a, p, Send(p, i, a));
    PendingNext(next, g.next, heads, p.lists, i, i, 0, []);
    heads' := heads[i := 0];
    assert heads[i := 0][i := 0] == heads' && p.lists[i := []][i := []] == p.lists[i := []];
  }

  lemma LandTested(code: seq<Byte>, code': seq<Byte>, next: Links, next': Links, l: seq<nat>)
    requires |code'| == |code| && next' == Without(next, l)
    requires forall k: nat | k < |code| && Outside(l, k) :: code'[k] == code[k]
    ensures Tested([], code, code', next, next', l, 0)
  {
  }

  method DoBranch(g: CodeGen, test: Test, inv: nat, i: nat, heads: seq<nat>, ghost p: Plan) returns (heads': seq<nat>)
    requires Follows(g, p, heads) && OpOk(Branch(test, inv, i), |heads|) && g.ind + 16 < 0x8000_0000
    modifies g, g.data
    ensures Follows(g, Step(p, Branch(test, inv, i)), heads') && (g.data == old(g.data) || fresh(g.data))
  {
    if test.Jumps? {
      heads' := DoJumps(g, test.c, test.kind, inv, i, heads, p);
    } else {
      heads' := DoTest(g, test, inv, i, heads, p);
    }
  }

  /** A test without pending jumps of its own. */
  method DoTest(g: CodeGen, test: Test, inv: nat, i: nat, heads: seq<nat>, ghost p: Plan) returns (heads': seq<nat>)
    requires Follows(g, p, heads) && OpOk(Branch(test, inv, i), |heads|) && !test.Jumps? && g.ind + 16 < 0x8000_0000
    modifies g, g.data
    ensures Follows(g, Step(p, Branch(test, inv, i)), heads') && (g.data == old(g.data) || fresh(g.data))
  {
    hide IsList, OthersKept, Threaded, Tested, AllReach, InPlace, HeadsDiffer, Decided, Truth;
    ghost var code, next, b := g.Code(), g.next, TestBytes(test, inv);
    SizeIs(code, next, p);
    ghost var l;
    var h;
    h, l := g.Gtst(test, inv, heads[i], p.lists[i], []);
    if b == [] {
      NoneInPlace(code, g.Code(), next, g.next, [], h, p, p);
    } else {
      NewLinkOutside(code, g.Code(), next, g.next, h, b, []);
      JumpInPlace(b, code, g.Code(), next, g.next, h, p, i);
    }
    PendingNext(next, g.next, heads, p.lists, i, i, h, l);
    heads' := heads[i := 0][i := h];
    assert p.lists[i := []][i := l] == Step(p, Branch(test, inv, i)).lists;
  }

  lemma NoneInPlace(code: seq<Byte>, code': seq<Byte>, next: Links, next': Links, l: seq<nat>, h: nat, p: Plan, q: Plan)
    requires InPlace(code, next, p) && Tested([], code, code', next, next', l, h) &&
             forall i: nat | i < |l| :: l[i] in next
    requires q == p.(lists := q.lists)
    ensures InPlace(code', next', q)
  {
    TestMoves([], code, code', next, next', l, h);
    Keeps(code, code', next, next', l, p, q);
  }

  /** A test that is pending jumps: list j. */
  method DoJumps(g: CodeGen, j: nat, kind: nat, inv: nat, i: nat, heads: seq<nat>, ghost p: Plan)
      returns (heads': seq<nat>)
    requires Follows(g, p, heads) && i < |heads| && j < |heads| && i != j && inv < 2 && kind < 2 &&
             g.ind + 16 < 0x8000_0000
    modifies g, g.data
    ensures Follows(g, Step(p, Branch(Jumps(j, kind), inv, i)), heads') && (g.data == old(g.data) || fresh(g.data))
  {
    hide IsList, OthersKept, Threaded, Tested, AllReach, InPlace, HeadsDiffer, Decided, Truth;
    ghost var code, next, lc := g.Code(), g.next, p.lists[j];
    SizeIs(code, next, p);
    ghost var b, q := TestBytes(Jumps(j, kind), inv), Step(p, Branch(Jumps(j, kind), inv, i));
    Differ(heads, j, i);
    LinksOf(next, heads[j], lc);
    ghost var l;
    var h;
    h, l := g.Gtst(Jumps(heads[j], kind), inv, heads[i], p.lists[i], lc);
    assert b == TestBytes(Jumps(heads[j], kind), inv);
    if b == [] {
      NoneInPlace(code, g.Code(), next, g.next, lc, h, p, q);
    } else {
      NewLinkOutside(code, g.Code(), next, g.next, h, b, lc);
      SendInPlace(b, code, g.Code(), next, g.next, lc, h, g.ind, p, q);
    }
    PendingNext(next, g.next, heads, p.lists, i, j, h, l);
    heads' := heads[j := 0][i := h];
    assert p.lists[j := []][i := l] == q.lists;
  }

  /** One operation. */
  method Do(g: CodeGen, op: Op, heads: seq<nat>, ghost p: Plan) returns (heads': seq<nat>)
    requires Follows(g, p, heads) && OpOk(op, |heads|) && g.ind + 16 < 0x8000_0000
    modifies g, g.data
    ensures Follows(g, Step(p, op), heads') && (g.data == old(g.data) || fresh(g.data))
  {
    match op
    case Open =>
      NilIsList(g.next);
      heads' := heads + [0];
    case Emit(c) =>
      DoEmit(g, c, heads, p);
      heads' := heads;
    case Goto(i) => heads' := DoGoto(g, i, heads, p);
    case Branch(test, inv, i) => heads' := DoBranch(g, test, inv, i, heads, p);
    case Land(i) => heads' := DoLand(g, i, g.ind, heads, p);
    case LandAt(i, a) => heads' := DoLand(g, i, a, heads, p);
  }

  /**
   * Any run, from an empty buffer: the code follows the plan of the run. Every jump that has been resolved goes where
   * it was sent, whatever was emitted, joined and resolved since; every other one is in exactly the list it should
   * be in; and no byte but the jumps' operands has changed.
   */
  method Run(ops: seq<Op>) returns (g: CodeGen, heads: seq<nat>)
    requires Legal(ops) && PlanOf(ops).size + 16 < 0x8000_0000
    ensures fresh(g) && Follows(g, PlanOf(ops), heads)
  {
    g := new CodeGen();
    heads := [];
    var k := 0;
    while k < |ops|
      invariant k <= |ops| && fresh(g) && fresh(g.data) && Legal(ops[..k]) && Follows(g, PlanOf(ops[..k]), heads)
    {
      LegalPrefix(ops, k + 1);
      assert ops[..k + 1][..k] == ops[..k];
      heads := Do(g, ops[k], heads, PlanOf(ops[..k]));
      k := k + 1;
    }
    assert ops[..k] == ops;
  }
}
