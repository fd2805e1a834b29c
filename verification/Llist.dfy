/** The lock-less list as interleaved atomic steps: many producers add batches of nodes, many consumers take
    the first node or all of them. */
module Llist {
  import opened Common

  /** A producer: idle, with a private chain of nodes, with the head it has loaded, and with its last node
      linked to that head. */
  datatype Producer = Idle | Prepared(batch: seq<nat>) | Loaded(batch: seq<nat>,
    first: nat) | Linked(batch: seq<nat>, first: nat)

  /** A consumer in llist_del_first: idle, with an entry loaded from the head, and with its next pointer. */
  datatype Consumer = Waiting | Entry(entry: nat) | Next(entry: nat, next: nat)

  /** The shared memory and the local state of all threads; 0 is the null pointer. Free nodes belong to
      callers. */
  datatype State = State(head: nat, next: map<nat, nat>, prods: map<nat, Producer>, cons: map<nat, Consumer>,
    free: set<nat>)

  /** What a step does, seen from outside; removals say which consumer makes them. */
  datatype Label = Silent | Push(batch: seq<nat>, wasEmpty: bool) | Pop(who: nat,
    node: nat) | PopNone | TakeAll(who: nat, first: nat)

  function Batch(p: Producer): seq<nat> { if p.Idle? then [] else p.batch }

  // ----- steps

  ghost predicate LinkedInside(next: map<nat, nat>, b: seq<nat>) {
    forall i {:trigger b[i]} :: 0 <= i < |b| ==> b[i] in next && b[i] != 0 && (i + 1 < |b| ==> next[b[i]] == b[i + 1])
  }

  /** A caller makes a private chain of its own nodes. */
  ghost predicate Prepare(s: State, p: nat, batch: seq<nat>, s': State) {
    && p in s.prods && s.prods[p].Idle? && batch != [] && Distinct(batch)
    && (forall i :: 0 <= i < |batch| ==> batch[i] in s.free && batch[i] != 0)
    && LinkedInside(s'.next, batch)
    && (forall n :: n in s.next && n !in batch ==> n in s'.next && s'.next[n] == s.next[n])
    && s' == State(s.head, s'.next, s.prods[p := Prepared(batch)], s.cons, s.free - set n | n in batch)
  }

  /** llist_add_batch: load the head, link the last node to it, compare and swap. */
  ghost predicate LoadHead(s: State, p: nat, s': State) {
    && p in s.prods && s.prods[p].Prepared?
    && s' == s.(prods := s.prods[p := Loaded(s.prods[p].batch, s.head)])
  }

  ghost predicate LinkLast(s: State, p: nat, s': State) {
    && p in s.prods && s.prods[p].Loaded? && s.prods[p].batch != []
    && (var q := s.prods[p];
        s' == s.(next := s.next[q.batch[|q.batch| - 1] := q.first], prods := s.prods[p := Linked(q.batch, q.first)]))
  }

  ghost predicate Swap(s: State, p: nat, s': State, l: Label) {
    && p in s.prods && s.prods[p].Linked? && s.prods[p].batch != []
    && (var q := s.prods[p];
        if s.head == q.first then
          && l == Push(q.batch, q.first == 0)
          && s' == s.(head := q.batch[0], prods := s.prods[p := Idle])
        else
          && l == Silent && s' == s.(prods := s.prods[p := Prepared(q.batch)]))
  }

  /** llist_del_first: load the head, read the next pointer of the entry, compare and swap. */
  ghost predicate LoadEntry(s: State, c: nat, s': State, l: Label) {
    && c in s.cons && s.cons[c].Waiting?
    && (if s.head == 0 then l == PopNone && s' == s
        else l == Silent && s' == s.(cons := s.cons[c := Entry(s.head)]))
  }

  ghost predicate ReadNext(s: State, c: nat, s': State) {
    && c in s.cons && s.cons[c].Entry? && s.cons[c].entry in s.next
    && s' == s.(cons := s.cons[c := Next(s.cons[c].entry, s.next[s.cons[c].entry])])
  }

  ghost predicate SwapOut(s: State, c: nat, s': State, l: Label) {
    && c in s.cons && s.cons[c].Next?
    && (var e := s.cons[c].entry;
        if s.head == e then
          && l == Pop(c, e) && s' == s.(head := s.cons[c].next, cons := s.cons[c := Waiting], free := s.free + {e})
        else if s.head == 0 then
          && l == PopNone && s' == s.(cons := s.cons[c := Waiting])
        else
          && l == Silent && s' == s.(cons := s.cons[c := Entry(s.head)]))
  }

  /** llist_del_all; the nodes taken are given back by their addresses. */
  ghost predicate Exchange(s: State, c: nat, s': State, l: Label) {
    && c in s.cons && s.cons[c].Waiting? && l == TakeAll(c, s.head)
    && s' == s.(head := 0, free := s.free + Reach(s.next, s.head, s.next.Keys))
  }

  /** The nodes on the chain from a node. */
  ghost function Reach(next: map<nat, nat>, n: nat, left: set<nat>): set<nat>
    decreases left
  {
    if n == 0 || n !in left || n !in next then {} else {n} + Reach(next, next[n], left - {n})
  }

  ghost predicate Step(s: State, s': State, l: Label) {
    || (exists p: nat, b: seq<nat> :: l == Silent && Prepare(s, p, b, s'))
    || (exists p: nat :: l == Silent && LoadHead(s, p, s'))
    || (exists p: nat :: l == Silent && LinkLast(s, p, s'))
    || (exists p: nat :: Swap(s, p, s', l))
    || (exists c: nat :: LoadEntry(s, c, s', l))
    || (exists c: nat :: l == Silent && ReadNext(s, c, s'))
    || (exists c: nat :: SwapOut(s, c, s', l))
    || (exists c: nat :: Exchange(s, c, s', l))
  }

  /** Nodes are removed only while no other consumer is inside llist_del_first. */
  ghost predicate Guarded(s: State, l: Label) {
    l.Pop? || l.TakeAll? ==> forall d :: d in s.cons && d != l.who ==> s.cons[d].Waiting?
  }

  // ----- the stack that the list stands for

  ghost predicate Holds(next: map<nat, nat>, head: nat, st: seq<nat>) {
    && head == (if st == [] then 0 else st[0])
    && forall i {:trigger st[i]} :: 0 <= i < |st| ==> st[i] != 0 && st[i] in next && next[st[i]] == After(st, i, 0)
  }

  /** Who has a node: the list, a producer, or a caller. */
  datatype Owner = InList | With(p: nat) | Outside

  ghost predicate Owned(s: State, st: seq<nat>, own: nat -> Owner) {
    && (forall n: nat :: n in st ==> own(n) == InList)
    && (forall p: nat, n: nat :: p in s.prods && n in Batch(s.prods[p]) ==> own(n) == With(p))
    && (forall n: nat :: n in s.free ==> own(n) == Outside)
  }

  ghost predicate ProducerOk(s: State, p: nat)
    requires p in s.prods
  {
    var q := s.prods[p];
    q.Idle? || (
      && q.batch != [] && Distinct(q.batch) && LinkedInside(s.next, q.batch)
      && (q.Linked? ==> q.batch[|q.batch| - 1] in s.next && s.next[q.batch[|q.batch| - 1]] == q.first))
  }

  /** The entry a consumer looks at is still on the list, and the next pointer it has read is current. */
  ghost predicate ConsumerOk(c: Consumer, next: map<nat, nat>, st: seq<nat>) {
    match c
    case Waiting => true
    case Entry(e) => e in st
    case Next(e, n) => e in st && e in next && next[e] == n
  }

  ghost predicate ConsumersOk(s: State, st: seq<nat>) {
    forall c :: c in s.cons ==> ConsumerOk(s.cons[c], s.next, st)
  }

  ghost predicate Inv(s: State, st: seq<nat>, own: nat -> Owner) {
    && Holds(s.next, s.head, st) && Distinct(st) && Owned(s, st, own)
    && (forall p :: p in s.prods ==> ProducerOk(s, p))
    && ConsumersOk(s, st)
  }

  /** What a step does to the stack: additions go on top as one piece, removals take the top or everything. */
  ghost predicate Effect(st: seq<nat>, l: Label, st': seq<nat>) {
    match l
    case Silent => st' == st
    case Push(b, e) => st' == b + st && e == (st == [])
    case Pop(_, n) => st != [] && st[0] == n && st' == st[1..]
    case PopNone => st == [] && st' == st
    case TakeAll(_, f) => f == (if st == [] then 0 else st[0]) && st' == []
  }

  // ----- every step is a step of an atomic stack

  lemma {:induction false} HoldsSame(next: map<nat, nat>, next': map<nat, nat>, head: nat, st: seq<nat>)
    requires Holds(next, head, st) && forall n :: n in st ==> n in next' && n in next && next'[n] == next[n]
    ensures Holds(next', head, st)
  {
  }

  lemma {:induction false} LinksSame(next: map<nat, nat>, next': map<nat, nat>, b: seq<nat>)
    requires LinkedInside(next, b) && forall n :: n in b && n in next ==> n in next' && next'[n] == next[n]
    ensures LinkedInside(next', b)
  {
  }

  /** Consumers keep what they know when the nodes of the list keep their next pointers. */
  lemma {:induction false} ConsumersSame(s: State, st: seq<nat>, s': State, st': seq<nat>)
    requires ConsumersOk(s, st) && s'.cons == s.cons && forall n :: n in st ==>
               n in st' && n in s.next && n in s'.next && s'.next[n] == s.next[n]
    ensures ConsumersOk(s', st')
  {
  }

  lemma {:induction false} PrepareKeeps(s: State, st: seq<nat>, own: nat -> Owner, p: nat, batch: seq<nat>, s': State)
    returns (own': nat -> Owner)
    requires Inv(s, st, own) && Prepare(s, p, batch, s')
    ensures Inv(s', st, own')
  {
    hide Holds, LinkedInside, Distinct, ConsumersOk;
    own' := (n: nat) => if n in batch then With(p) else own(n);
    forall n | n in batch ensures own(n) == Outside {
      var i :| 0 <= i < |batch| && batch[i] == n;
    }
    forall n | n in st ensures n in s.next { InNext(s.next, s.head, st, n); }
    HoldsSame(s.next, s'.next, s.head, st);
    ConsumersSame(s, st, s', st);
    forall q | q in s'.prods ensures ProducerOk(s', q) {
      if q != p && !s.prods[q].Idle? {
        assert ProducerOk(s, q);
        LinksSame(s.next, s'.next, s.prods[q].batch);
        LastIn(s.prods[q].batch);
      }
    }
  }

  lemma {:induction false} InNext(next: map<nat, nat>, head: nat, st: seq<nat>, n: nat)
    requires Holds(next, head, st) && n in st
    ensures n in next && n != 0
  {
    var i :| 0 <= i < |st| && st[i] == n;
  }

  lemma {:induction false} LastIn(b: seq<nat>)
    requires b != []
    ensures b[|b| - 1] in b
  {
  }

  lemma {:induction false} LoadHeadKeeps(s: State, st: seq<nat>, own: nat -> Owner, p: nat, s': State)
    requires Inv(s, st, own) && LoadHead(s, p, s')
    ensures Inv(s', st, own)
  {
    hide Holds, LinkedInside, Distinct, ConsumersOk;
    forall q | q in s'.prods ensures ProducerOk(s', q) { assert ProducerOk(s, q); }
    assert Batch(s'.prods[p]) == Batch(s.prods[p]);
    forall n | n in st ensures n in s.next { InNext(s.next, s.head, st, n); }
    ConsumersSame(s, st, s', st);
  }

  lemma {:induction false} LinkLastKeeps(s: State, st: seq<nat>, own: nat -> Owner, p: nat, s': State)
    requires Inv(s, st, own) && LinkLast(s, p, s')
    ensures Inv(s', st, own)
  {
    hide Holds, LinkedInside, Distinct, ConsumersOk;
    var b := s.prods[p].batch;
    var last := b[|b| - 1];
    LastIn(b);
    assert own(last) == With(p);
    forall n | n in st ensures n in s.next && n != last { InNext(s.next, s.head, st, n); }
    HoldsSame(s.next, s'.next, s.head, st);
    ConsumersSame(s, st, s', st);
    assert Batch(s'.prods[p]) == Batch(s.prods[p]);
    hide ProducerOk;
    forall q | q in s'.prods ensures ProducerOk(s', q) {
      assert ProducerOk(s, q);
      if q == p {
        LinkingOk(s, p, s');
      } else {
        assert last in Batch(s.prods[q]) ==> own(last) == With(q);
        OtherOk(s, q, last, s');
      }
    }
  }

  lemma {:induction false} LinkingOk(s: State, p: nat, s': State)
    requires LinkLast(s, p, s') && ProducerOk(s, p)
    ensures p in s'.prods && ProducerOk(s', p)
  {
    hide LinkedInside, Distinct;
    LinkEnd(s.next, s.prods[p].batch, s.prods[p].first);
  }

  /** A producer does not see a change outside its batch. */
  lemma {:induction false} OtherOk(s: State, q: nat, changed: nat, s': State)
    requires q in s.prods && ProducerOk(s, q) && q in s'.prods && s'.prods[q] == s.prods[q]
             && changed !in Batch(s.prods[q])
    requires forall n :: n in s.next && n != changed ==> n in s'.next && s'.next[n] == s.next[n]
    ensures ProducerOk(s', q)
  {
    hide LinkedInside, Distinct;
    if !s.prods[q].Idle? {
      LastIn(s.prods[q].batch);
      LinksSame(s.next, s'.next, s.prods[q].batch);
    }
  }

  lemma {:induction false} LinkEnd(next: map<nat, nat>, b: seq<nat>, x: nat)
    requires LinkedInside(next, b) && Distinct(b) && b != []
    ensures LinkedInside(next[b[|b| - 1] := x], b)
  {
  }

  lemma {:induction false} SwapKeeps(s: State, st: seq<nat>, own: nat -> Owner, p: nat, s': State, l: Label)
    returns (st': seq<nat>, own': nat -> Owner)
    requires Inv(s, st, own) && Swap(s, p, s', l)
    ensures Inv(s', st', own') && Effect(st, l, st')
  {
    hide LinkedInside, Distinct, Holds, ConsumersOk;
    var b := s.prods[p].batch;
    assert ProducerOk(s, p);
    forall n | n in st ensures n in s.next { InNext(s.next, s.head, st, n); }
    ConsumersSame(s, st, s', st);
    ConsumersSame(s, st, s', b + st);
    forall q | q in s'.prods ensures ProducerOk(s', q) { assert ProducerOk(s, q); }
    if s.head == s.prods[p].first {
      st' := b + st;
      own' := (n: nat) => if n in b then InList else own(n);
      JoinHolds(s.next, s.head, st, b);
      forall n | n in b ensures own(n) == With(p) { assert n in Batch(s.prods[p]); }
      JoinDistinct(b, st);
      EmptyIff(s.next, s.head, st);
      forall q: nat, n: nat | q in s'.prods && n in Batch(s'.prods[q]) ensures own'(n) == With(q) {
        assert q != p && n in Batch(s.prods[q]);
      }
    } else {
      st', own' := st, own;
      assert Batch(s'.prods[p]) == Batch(s.prods[p]);
    }
  }

  lemma {:induction false} EmptyIff(next: map<nat, nat>, head: nat, st: seq<nat>)
    requires Holds(next, head, st)
    ensures head == 0 <==> st == []
    ensures st != [] ==> st[0] == head && head in st
  {
  }

  lemma {:induction false} JoinHolds(next: map<nat, nat>, head: nat, st: seq<nat>, b: seq<nat>)
    requires Holds(next, head, st) && LinkedInside(next, b) && b != [] && b[|b| - 1] in next && next[b[|b| - 1]] == head
    ensures Holds(next, b[0], b + st)
  {
    var r := b + st;
    forall i | 0 <= i < |r| ensures r[i] != 0 && r[i] in next && next[r[i]] == After(r, i, 0) {
      if i < |b| {
        assert r[i] == b[i];
        if i + 1 < |b| { assert r[i + 1] == b[i + 1]; } else { assert st != [] ==> r[i + 1] == st[0]; }
      } else {
        assert r[i] == st[i - |b|] && next[st[i - |b|]] == After(st, i - |b|, 0);
        assert i + 1 < |r| ==> r[i + 1] == st[i + 1 - |b|];
      }
    }
  }

  lemma {:induction false} JoinDistinct(b: seq<nat>, st: seq<nat>)
    requires Distinct(b) && Distinct(st) && forall n :: n in b ==> n !in st
    ensures Distinct(b + st)
  {
    var r := b + st;
    forall i, j | 0 <= i < j < |r| ensures r[i] != r[j] {
      if i < |b| && j >= |b| { assert r[i] in b && r[j] == st[j - |b|]; }
      else if i >= |b| { assert r[i] == st[i - |b|] && r[j] == st[j - |b|]; }
    }
  }

  /** A successful compare and swap in llist_del_first finds the entry on top, with its next pointer
      unchanged since it was read. */
  lemma {:induction false} SwapOutKeeps(s: State, st: seq<nat>, own: nat -> Owner, c: nat, s': State, l: Label)
    returns (st': seq<nat>, own': nat -> Owner)
    requires Inv(s, st, own) && SwapOut(s, c, s', l) && Guarded(s, l)
    ensures Inv(s', st', own') && Effect(st, l, st')
    ensures l.Pop? ==> s.cons[c].entry in s.next && s.next[s.cons[c].entry] == s.cons[c].next
  {
    hide LinkedInside, Distinct, Holds;
    EmptyIff(s.next, s.head, st);
    forall q | q in s'.prods ensures ProducerOk(s', q) { assert ProducerOk(s, q); }
    var e := s.cons[c].entry;
    assert ConsumerOk(s.cons[c], s.next, st);
    InNext(s.next, s.head, st, e);
    if s.head == e {
      st' := st[1..];
      own' := (n: nat) => if n == e then Outside else own(n);
      TopOff(s.next, s.head, st);
      forall n | n in st' ensures n in st && n != e { }
    } else {
      st', own' := st, own;
    }
  }

  lemma {:induction false} TopOff(next: map<nat, nat>, head: nat, st: seq<nat>)
    requires Holds(next, head, st) && st != [] && Distinct(st)
    ensures head in next && Holds(next, next[head], st[1..]) && Distinct(st[1..]) && head !in st[1..]
    ensures forall n :: n in st[1..] ==> n in st
  {
    var r := st[1..];
    assert next[st[0]] == After(st, 0, 0);
    forall i | 0 <= i < |r| ensures r[i] != 0 && r[i] in next && next[r[i]] == After(r, i, 0) {
      assert r[i] == st[i + 1] && next[st[i + 1]] == After(st, i + 1, 0);
      assert i + 1 < |r| ==> r[i + 1] == st[i + 2];
    }
  }

  lemma {:induction false} ReachAll(next: map<nat, nat>, head: nat, st: seq<nat>, left: set<nat>)
    requires Holds(next, head, st) && Distinct(st) && forall n :: n in st ==> n in left
    ensures Reach(next, head, left) == set n | n in st
    decreases |st|
  {
    if st != [] {
      TopOff(next, head, st);
      ReachAll(next, next[head], st[1..], left - {head});
      assert forall n :: n in st <==> n == head || n in st[1..];
    }
  }

  lemma {:induction false} ExchangeKeeps(s: State, st: seq<nat>, own: nat -> Owner, c: nat, s': State, l: Label)
    returns (own': nat -> Owner)
    requires Inv(s, st, own) && Exchange(s, c, s', l) && Guarded(s, l)
    ensures Inv(s', [], own') && Effect(st, l, [])
  {
    hide LinkedInside, Distinct, Reach;
    EmptyIff(s.next, s.head, st);
    forall n | n in st ensures n in s.next.Keys { InNext(s.next, s.head, st, n); }
    ReachAll(s.next, s.head, st, s.next.Keys);
    NoneDistinct();
    own' := (n: nat) => if n in st then Outside else own(n);
    forall q | q in s'.prods ensures ProducerOk(s', q) { assert ProducerOk(s, q); }
  }

  lemma {:induction false} NoneDistinct()
    ensures Distinct([])
  {
  }

  lemma {:induction false} ConsumerKeeps(s: State, st: seq<nat>, own: nat -> Owner, c: nat, s': State, l: Label)
    requires Inv(s, st, own) && (LoadEntry(s, c, s', l) || (l == Silent && ReadNext(s, c, s')))
    ensures Inv(s', st, own) && Effect(st, l, st)
  {
    hide LinkedInside, Distinct, Holds;
    EmptyIff(s.next, s.head, st);
    forall q | q in s'.prods ensures ProducerOk(s', q) { assert ProducerOk(s, q); }
  }

  /** Every step of every interleaving is a step of an atomic stack, or leaves the stack alone. */
  lemma {:induction false} StepRefines(s: State, st: seq<nat>, own: nat -> Owner, s': State, l: Label)
    returns (st': seq<nat>, own': nat -> Owner)
    requires Inv(s, st, own) && Step(s, s', l) && Guarded(s, l)
    ensures Inv(s', st', own') && Effect(st, l, st')
  {
    hide Inv, Prepare, LoadHead, LinkLast, Swap, LoadEntry, ReadNext, SwapOut, Exchange, Guarded;
    st', own' := st, own;
    if p: nat, b: seq<nat> :| l == Silent && Prepare(s, p, b, s') {
      own' := PrepareKeeps(s, st, own, p, b, s');
    } else if p: nat :| l == Silent && LoadHead(s, p, s') {
      LoadHeadKeeps(s, st, own, p, s');
    } else if p: nat :| l == Silent && LinkLast(s, p, s') {
      LinkLastKeeps(s, st, own, p, s');
    } else if p: nat :| Swap(s, p, s', l) {
      st', own' := SwapKeeps(s, st, own, p, s', l);
    } else if c: nat :| LoadEntry(s, c, s', l) || (l == Silent && ReadNext(s, c, s')) {
      ConsumerKeeps(s, st, own, c, s', l);
    } else if c: nat :| SwapOut(s, c, s', l) {
      st', own' := SwapOutKeeps(s, st, own, c, s', l);
    } else {
      var c: nat :| Exchange(s, c, s', l);
      own' := ExchangeKeeps(s, st, own, c, s', l);
      st' := [];
    }
  }

  // ----- whole runs

  /** A run: states, and between them labelled steps. */
  ghost predicate Run(states: seq<State>, labels: seq<Label>) {
    && |states| == |labels| + 1
    && forall i {:trigger labels[i]} :: 0 <= i < |labels| ==> Step(states[i], states[i + 1], labels[i])
  }

  ghost predicate GuardedRun(states: seq<State>, labels: seq<Label>)
    requires |states| == |labels| + 1
  {
    forall i {:trigger labels[i]} :: 0 <= i < |labels| ==> Guarded(states[i], labels[i])
  }

  /** The stacks that go with a run of an atomic stack. */
  ghost predicate StackRun(stacks: seq<seq<nat>>, labels: seq<Label>) {
    && |stacks| == |labels| + 1
    && forall i {:trigger labels[i]} :: 0 <= i < |labels| ==> Effect(stacks[i], labels[i], stacks[i + 1])
  }

  /** Every guarded run behaves like an atomic stack. */
  lemma {:induction false} RunRefines(states: seq<State>, labels: seq<Label>, st: seq<nat>, own: nat -> Owner)
    returns (stacks: seq<seq<nat>>, own': nat -> Owner)
    requires Run(states, labels) && GuardedRun(states, labels) && Inv(states[0], st, own)
    ensures StackRun(stacks, labels) && stacks[0] == st && Inv(states[|labels|], stacks[|labels|], own')
    decreases |labels|
  {
    hide Inv, Step, Effect, Guarded;
    if labels == [] {
      stacks, own' := [st], own;
    } else {
      var n := |labels| - 1;
      var front, o := RunRefines(states[..n + 1], labels[..n], st, own);
      var last, o' := StepRefines(states[n], front[n], o, states[n + 1], labels[n]);
      stacks, own' := front + [last], o';
      forall i | 0 <= i < |labels| ensures Effect(stacks[i], labels[i], stacks[i + 1]) {
        if i < n { assert labels[..n][i] == labels[i] && stacks[i] == front[i] && stacks[i + 1] == front[i + 1]; }
      }
    }
  }

  // ----- which uses need no lock

  /** What a consumer may call: llist_del_first or llist_del_all. */
  datatype Use = First | All

  type Uses = map<nat, set<Use>>

  /** A consumer inside llist_del_first uses it, and so does one that returns from it; only a consumer that uses
      llist_del_all takes everything. */
  ghost predicate UsesAt(s: State, U: Uses) {
    s.cons.Keys == U.Keys && forall c :: c in s.cons && c in U && !s.cons[c].Waiting? ==> First in U[c]
  }

  ghost predicate LabelUses(l: Label, U: Uses) {
    && (l.Pop? ==> l.who in U && First in U[l.who])
    && (l.TakeAll? ==> l.who in U && All in U[l.who])
  }

  ghost predicate RunUses(states: seq<State>, labels: seq<Label>, U: Uses) {
    && (forall i :: 0 <= i < |states| ==> UsesAt(states[i], U))
    && (forall i :: 0 <= i < |labels| ==> LabelUses(labels[i], U))
  }

  /** A consumer that uses llist_del_first has no other consumer beside it. */
  ghost predicate LockFree(U: Uses) {
    forall c, d :: c in U && d in U && c != d && First in U[c] ==> U[d] == {}
  }

  lemma {:induction false} LockFreeGuarded(s: State, l: Label, U: Uses)
    requires UsesAt(s, U) && LabelUses(l, U) && LockFree(U)
    ensures Guarded(s, l)
  {
    if l.Pop? || l.TakeAll? {
      forall d | d in s.cons && d != l.who ensures s.cons[d].Waiting? { assert d in U; }
    }
  }

  ghost predicate IsStackRun(labels: seq<Label>, st: seq<nat>) {
    exists stacks: seq<seq<nat>> :: StackRun(stacks, labels) && stacks[0] == st
  }

  /** Such uses behave like an atomic stack. */
  lemma {:induction false} SafeUses(states: seq<State>, labels: seq<Label>, st: seq<nat>, own: nat -> Owner, U: Uses)
    requires Run(states, labels) && Inv(states[0], st, own) && RunUses(states, labels, U) && LockFree(U)
    ensures IsStackRun(labels, st)
  {
    hide Inv, Step, Effect, UsesAt, LabelUses, LockFree, Guarded;
    forall i | 0 <= i < |labels| ensures Guarded(states[i], labels[i]) { LockFreeGuarded(states[i], labels[i], U); }
    var stacks, own' := RunRefines(states, labels, st, own);
  }

  ghost function Comes(l: Label): multiset<nat> { if l.Push? then multiset(l.batch) else multiset{} }

  ghost function Goes(st: seq<nat>, l: Label): multiset<nat> {
    match l
    case Pop(_, x) => multiset{x}
    case TakeAll(_, _) => multiset(st)
    case _ => multiset{}
  }

  /** The nodes that have gone in, and that have come out, in a run of a stack. */
  ghost function Added(labels: seq<Label>): multiset<nat> {
    if labels == [] then multiset{} else Added(labels[..|labels| - 1]) + Comes(labels[|labels| - 1])
  }

  ghost function Taken(stacks: seq<seq<nat>>, labels: seq<Label>): multiset<nat>
    requires |stacks| == |labels| + 1
  {
    if labels == [] then multiset{}
    else Taken(stacks[..|labels|], labels[..|labels| - 1]) + Goes(stacks[|labels| - 1], labels[|labels| - 1])
  }

  /** No node is lost and none is returned twice: what went in is what came out and what is still there. */
  lemma {:induction false} NothingLost(stacks: seq<seq<nat>>, labels: seq<Label>)
    requires StackRun(stacks, labels)
    ensures multiset(stacks[0]) + Added(labels) == multiset(stacks[|labels|]) + Taken(stacks, labels)
    decreases |labels|
  {
    if labels != [] {
      hide Effect, Comes, Goes, Added, Taken;
      var n := |labels| - 1;
      TallyStep(stacks, labels);
      forall i | 0 <= i < n ensures Effect(stacks[..n + 1][i], labels[..n][i], stacks[..n + 1][i + 1]) {
        assert labels[..n][i] == labels[i];
      }
      NothingLost(stacks[..n + 1], labels[..n]);
      assert Effect(stacks[n], labels[n], stacks[n + 1]);
      OneStep(stacks[n], labels[n], stacks[n + 1]);
      Tally(multiset(stacks[0]), Added(labels[..n]), multiset(stacks[n]), Taken(stacks[..n + 1], labels[..n]),
            Comes(labels[n]), multiset(stacks[n + 1]), Goes(stacks[n], labels[n]));
    } else {
      TallyNone(stacks);
    }
  }

  lemma {:induction false} TallyNone(stacks: seq<seq<nat>>)
    requires |stacks| == 1
    ensures Added([]) == multiset{} && Taken(stacks, []) == multiset{}
  {
  }

  lemma {:induction false} TallyStep(stacks: seq<seq<nat>>, labels: seq<Label>)
    requires |stacks| == |labels| + 1 && labels != []
    ensures Added(labels) == Added(labels[..|labels| - 1]) + Comes(labels[|labels| - 1])
    ensures Taken(stacks, labels)
            == Taken(stacks[..|labels|], labels[..|labels| - 1]) + Goes(stacks[|labels| - 1], labels[|labels| - 1])
  {
    hide Comes, Goes;
  }

  lemma {:induction false} Tally(a: multiset<nat>, x: multiset<nat>, m: multiset<nat>, y: multiset<nat>,
                                 c: multiset<nat>, z: multiset<nat>, g: multiset<nat>)
    requires a + x == m + y && m + c == z + g
    ensures a + (x + c) == z + (y + g)
  {
    assert a + (x + c) == (a + x) + c;
    assert (m + y) + c == (m + c) + y;
    assert (z + g) + y == z + (y + g);
  }

  lemma {:induction false} OneStep(st: seq<nat>, l: Label, st': seq<nat>)
    requires Effect(st, l, st')
    ensures multiset(st) + Comes(l) == multiset(st') + Goes(st, l)
  {
    if l.Pop? { assert st == [st[0]] + st[1..]; }
  }

  // ----- two consumers

  /** The consumers of U: c and d in the given states, all others idle. */
  ghost function Consumers(U: Uses, c: nat, x: Consumer, d: nat, y: Consumer): map<nat, Consumer> {
    map k | k in U :: if k == c then x else if k == d then y else Waiting
  }

  /** Two different consumers of U. */
  ghost predicate Pair(U: Uses, c: nat, d: nat) {
    c in U && d in U && c != d
  }

  /** Nodes 1 and 2 and one producer. */
  ghost function Two(U: Uses, c: nat, d: nat, head: nat, one: nat, p: Producer, x: Consumer, y: Consumer,
                     free: set<nat>): State
  {
    State(head, map[1 := one, 2 := 0], map[0 := p], Consumers(U, c, x, d, y), free)
  }

  lemma {:induction false} TwoIs(U: Uses, c: nat, d: nat, head: nat, one: nat, p: Producer, x: Consumer, y: Consumer,
                                 free: set<nat>)
    requires Pair(U, c, d)
    ensures var s := Two(U, c, d, head, one, p, x, y, free);
            && s.head == head && s.next == map[1 := one, 2 := 0] && s.prods == map[0 := p] && s.free == free
            && c in s.cons && s.cons[c] == x && d in s.cons && s.cons[d] == y && 1 in s.next && 2 in s.next
    ensures forall x': Consumer :: Consumers(U, c, x', d, y) == Consumers(U, c, x, d, y)[c := x']
    ensures forall y': Consumer :: Consumers(U, c, x, d, y') == Consumers(U, c, x, d, y)[d := y']
  {
  }

  ghost function Start(U: Uses, c: nat, d: nat): State { Two(U, c, d, 1, 2, Idle, Waiting, Waiting, {}) }

  lemma {:induction false} TwoUses(U: Uses, c: nat, d: nat, head: nat, one: nat, p: Producer, x: Consumer, y: Consumer,
                                   free: set<nat>)
    requires Pair(U, c, d) && (!x.Waiting? ==> First in U[c]) && (!y.Waiting? ==> First in U[d])
    ensures UsesAt(Two(U, c, d, head, one, p, x, y, free), U)
  {
  }

  lemma {:induction false} TwoCons(U: Uses, c: nat, d: nat, head: nat, one: nat, p: Producer, x: Consumer, y: Consumer,
                                   free: set<nat>)
    ensures Two(U, c, d, head, one, p, x, y, free)
         == State(head, map[1 := one, 2 := 0], map[0 := p], Consumers(U, c, x, d, y), free)
  {
  }

  /** The two consumers can be named in either order. */
  lemma {:induction false} TwoSwap(U: Uses, c: nat, d: nat, head: nat, one: nat, p: Producer, x: Consumer, y: Consumer,
                                   free: set<nat>)
    requires Pair(U, c, d)
    ensures Two(U, c, d, head, one, p, x, y, free) == Two(U, d, c, head, one, p, y, x, free)
  {
  }

  /** What the proofs of single steps use of such a state. */
  lemma {:induction false} TwoFacts(U: Uses, c: nat, d: nat, head: nat, one: nat, p: Producer, x: Consumer, y: Consumer,
                                    free: set<nat>)
    requires Pair(U, c, d) && (!x.Waiting? ==> First in U[c]) && (!y.Waiting? ==> First in U[d])
    ensures var s := Two(U, c, d, head, one, p, x, y, free);
            && s == State(head, map[1 := one, 2 := 0], map[0 := p], Consumers(U, c, x, d, y), free)
            && UsesAt(s, U) && c in s.cons && s.cons[c] == x && 1 in s.next && 2 in s.next
    ensures forall x': Consumer :: Consumers(U, c, x', d, y) == Consumers(U, c, x, d, y)[c := x']
  {
    hide Two, Consumers, UsesAt;
    TwoIs(U, c, d, head, one, p, x, y, free);
    TwoUses(U, c, d, head, one, p, x, y, free);
    TwoCons(U, c, d, head, one, p, x, y, free);
  }

  /** A run from s to s' within the uses. */
  ghost predicate Leads(s: State, labels: seq<Label>, s': State, U: Uses) {
    exists states: seq<State> :: Path(states, s, labels, s', U)
  }

  ghost predicate Path(states: seq<State>, s: State, labels: seq<Label>, s': State, U: Uses) {
    Run(states, labels) && states[0] == s && states[|labels|] == s' && RunUses(states, labels, U)
  }

  lemma {:induction false} OneLeads(s: State, l: Label, s': State, U: Uses)
    requires Step(s, s', l) && UsesAt(s, U) && UsesAt(s', U) && LabelUses(l, U)
    ensures Leads(s, [l], s', U)
  {
    hide Step, UsesAt, LabelUses;
    assert Path([s, s'], s, [l], s', U);
  }

  lemma {:induction false} JoinLeads(s: State, x: seq<Label>, s': State, y: seq<Label>, s'': State, U: Uses)
    requires Leads(s, x, s', U) && Leads(s', y, s'', U)
    ensures Leads(s, x + y, s'', U)
  {
    hide Step, UsesAt, LabelUses;
    var a: seq<State> :| Path(a, s, x, s', U);
    var b: seq<State> :| Path(b, s', y, s'', U);
    var r, z := a + b[1..], x + y;
    forall i | 0 <= i < |z| ensures Step(r[i], r[i + 1], z[i]) {
      if i < |x| {
        assert z[i] == x[i] && Step(a[i], a[i + 1], x[i]);
      } else {
        var k := i - |x|;
        assert z[i] == y[k] && Step(b[k], b[k + 1], y[k]);
        assert r[i] == b[k] && r[i + 1] == b[k + 1];
      }
    }
    assert Path(r, s, z, s'', U);
  }

  lemma {:induction false} ConsumerLeads(s: State, c: nat, s': State, l: Label, U: Uses)
    requires LoadEntry(s, c, s', l) || (l == Silent && ReadNext(s, c, s')) || SwapOut(s, c, s', l)
             || Exchange(s, c, s', l)
    requires UsesAt(s, U) && UsesAt(s', U) && LabelUses(l, U)
    ensures Leads(s, [l], s', U)
  {
    hide LoadEntry, ReadNext, SwapOut, Exchange, UsesAt, LabelUses;
    OneLeads(s, l, s', U);
  }

  lemma {:induction false} ProducerLeads(s: State, b: seq<nat>, s': State, l: Label, U: Uses)
    requires (l == Silent && (Prepare(s, 0, b, s') || LoadHead(s, 0, s') || LinkLast(s, 0, s'))) || Swap(s, 0, s', l)
    requires UsesAt(s, U) && UsesAt(s', U) && LabelUses(l, U)
    ensures Leads(s, [l], s', U)
  {
    hide Prepare, LoadHead, LinkLast, Swap, UsesAt, LabelUses;
    OneLeads(s, l, s', U);
  }

  // ----- the steps of llist_del_first by c, and of llist_del_all

  lemma {:induction false} Loads(U: Uses, c: nat, d: nat, head: nat, one: nat, y: Consumer, free: set<nat>)
    requires Pair(U, c, d) && First in U[c] && (!y.Waiting? ==> First in U[d]) && head != 0
    ensures Leads(Two(U, c, d, head, one, Idle, Waiting, y, free), [Silent],
                  Two(U, c, d, head, one, Idle, Entry(head), y, free), U)
  {
    hide Two, Consumers, UsesAt, Leads;
    TwoFacts(U, c, d, head, one, Idle, Waiting, y, free);
    TwoFacts(U, c, d, head, one, Idle, Entry(head), y, free);
    var s, s' := Two(U, c, d, head, one, Idle, Waiting, y, free), Two(U, c, d, head, one, Idle, Entry(head), y, free);
    assert LoadEntry(s, c, s', Silent);
    ConsumerLeads(s, c, s', Silent, U);
  }

  lemma {:induction false} Reads(U: Uses, c: nat, d: nat, e: nat, head: nat, one: nat, y: Consumer, free: set<nat>)
    requires Pair(U, c, d) && First in U[c] && (!y.Waiting? ==> First in U[d]) && (e == 1 || e == 2)
    ensures Leads(Two(U, c, d, head, one, Idle, Entry(e), y, free), [Silent],
                  Two(U, c, d, head, one, Idle, Next(e, if e == 1 then one else 0), y, free), U)
  {
    hide Two, Consumers, UsesAt, Leads;
    var n := if e == 1 then one else 0;
    TwoFacts(U, c, d, head, one, Idle, Entry(e), y, free);
    TwoFacts(U, c, d, head, one, Idle, Next(e, n), y, free);
    var s, s' := Two(U, c, d, head, one, Idle, Entry(e), y, free), Two(U, c, d, head, one, Idle, Next(e, n), y, free);
    assert ReadNext(s, c, s');
    ConsumerLeads(s, c, s', Silent, U);
  }

  lemma {:induction false} Pops(U: Uses, c: nat, d: nat, e: nat, n: nat, one: nat, y: Consumer, free: set<nat>)
    requires Pair(U, c, d) && First in U[c] && (!y.Waiting? ==> First in U[d])
    ensures Leads(Two(U, c, d, e, one, Idle, Next(e, n), y, free), [Pop(c, e)],
                  Two(U, c, d, n, one, Idle, Waiting, y, free + {e}), U)
  {
    hide Two, Consumers, UsesAt, Leads;
    TwoFacts(U, c, d, e, one, Idle, Next(e, n), y, free);
    TwoFacts(U, c, d, n, one, Idle, Waiting, y, free + {e});
    var s, s' := Two(U, c, d, e, one, Idle, Next(e, n), y, free), Two(U, c, d, n, one, Idle, Waiting, y, free + {e});
    assert SwapOut(s, c, s', Pop(c, e));
    ConsumerLeads(s, c, s', Pop(c, e), U);
  }

  /** One node is taken, from load to compare and swap. */
  lemma {:induction false} TakesOne(U: Uses, c: nat, d: nat, e: nat, one: nat, y: Consumer, free: set<nat>)
    requires Pair(U, c, d) && First in U[c] && (!y.Waiting? ==> First in U[d]) && (e == 1 || e == 2)
    ensures Leads(Two(U, c, d, e, one, Idle, Waiting, y, free), [Silent] + [Silent] + [Pop(c, e)],
                  Two(U, c, d, if e == 1 then one else 0, one, Idle, Waiting, y, free + {e}), U)
  {
    hide Two, Consumers, UsesAt, Leads;
    var n := if e == 1 then one else 0;
    Loads(U, c, d, e, one, y, free);
    Reads(U, c, d, e, e, one, y, free);
    Pops(U, c, d, e, n, one, y, free);
    var s := Two(U, c, d, e, one, Idle, Waiting, y, free);
    JoinLeads(s, [Silent], Two(U, c, d, e, one, Idle, Entry(e), y, free), [Silent],
              Two(U, c, d, e, one, Idle, Next(e, n), y, free), U);
    JoinLeads(s, [Silent] + [Silent], Two(U, c, d, e, one, Idle, Next(e, n), y, free), [Pop(c, e)],
              Two(U, c, d, n, one, Idle, Waiting, y, free + {e}), U);
  }

  lemma {:induction false} TakesAll(U: Uses, c: nat, d: nat, y: Consumer)
    requires Pair(U, c, d) && All in U[c] && (!y.Waiting? ==> First in U[d])
    ensures Leads(Two(U, c, d, 1, 2, Idle, Waiting, y, {}), [TakeAll(c, 1)],
                  Two(U, c, d, 0, 2, Idle, Waiting, y, {1, 2}), U)
  {
    hide Two, Consumers, UsesAt, Leads;
    TwoFacts(U, c, d, 1, 2, Idle, Waiting, y, {});
    TwoFacts(U, c, d, 0, 2, Idle, Waiting, y, {1, 2});
    var s, s' := Two(U, c, d, 1, 2, Idle, Waiting, y, {}), Two(U, c, d, 0, 2, Idle, Waiting, y, {1, 2});
    assert Holds(s.next, 1, [1, 2]);
    ReachAll(s.next, 1, [1, 2], s.next.Keys);
    assert s'.free == s.free + Reach(s.next, 1, s.next.Keys);
    assert Exchange(s, c, s', TakeAll(c, 1));
    ConsumerLeads(s, c, s', TakeAll(c, 1), U);
  }

  // ----- node 1 is added again while c is inside llist_del_first

  lemma {:induction false} Prepares(U: Uses, c: nat, d: nat, x: Consumer)
    requires Pair(U, c, d) && First in U[c]
    ensures Leads(Two(U, c, d, 0, 2, Idle, x, Waiting, {1, 2}), [Silent],
                  Two(U, c, d, 0, 2, Prepared([1]), x, Waiting, {2}), U)
  {
    hide Two, Consumers, UsesAt, Leads;
    TwoFacts(U, c, d, 0, 2, Idle, x, Waiting, {1, 2});
    TwoFacts(U, c, d, 0, 2, Prepared([1]), x, Waiting, {2});
    var s, s' := Two(U, c, d, 0, 2, Idle, x, Waiting, {1, 2}), Two(U, c, d, 0, 2, Prepared([1]), x, Waiting, {2});
    assert s'.free == s.free - set n | n in [1];
    assert s'.prods == s.prods[0 := Prepared([1])];
    assert Prepare(s, 0, [1], s');
    ProducerLeads(s, [1], s', Silent, U);
  }

  lemma {:induction false} LoadsHead(U: Uses, c: nat, d: nat, x: Consumer)
    requires Pair(U, c, d) && First in U[c]
    ensures Leads(Two(U, c, d, 0, 2, Prepared([1]), x, Waiting, {2}), [Silent],
                  Two(U, c, d, 0, 2, Loaded([1], 0), x, Waiting, {2}), U)
  {
    hide Two, Consumers, UsesAt, Leads;
    TwoFacts(U, c, d, 0, 2, Prepared([1]), x, Waiting, {2});
    TwoFacts(U, c, d, 0, 2, Loaded([1], 0), x, Waiting, {2});
    var s := Two(U, c, d, 0, 2, Prepared([1]), x, Waiting, {2});
    var s' := Two(U, c, d, 0, 2, Loaded([1], 0), x, Waiting, {2});
    assert s'.prods == s.prods[0 := Loaded([1], 0)];
    assert LoadHead(s, 0, s');
    ProducerLeads(s, [1], s', Silent, U);
  }

  lemma {:induction false} Links(U: Uses, c: nat, d: nat, x: Consumer)
    requires Pair(U, c, d) && First in U[c]
    ensures Leads(Two(U, c, d, 0, 2, Loaded([1], 0), x, Waiting, {2}), [Silent],
                  Two(U, c, d, 0, 0, Linked([1], 0), x, Waiting, {2}), U)
  {
    hide Two, Consumers, UsesAt, Leads;
    TwoFacts(U, c, d, 0, 2, Loaded([1], 0), x, Waiting, {2});
    TwoFacts(U, c, d, 0, 0, Linked([1], 0), x, Waiting, {2});
    var s := Two(U, c, d, 0, 2, Loaded([1], 0), x, Waiting, {2});
    var s' := Two(U, c, d, 0, 0, Linked([1], 0), x, Waiting, {2});
    assert s'.next == s.next[1 := 0] && s'.prods == s.prods[0 := Linked([1], 0)];
    assert LinkLast(s, 0, s');
    ProducerLeads(s, [1], s', Silent, U);
  }

  lemma {:induction false} Swaps(U: Uses, c: nat, d: nat, x: Consumer)
    requires Pair(U, c, d) && First in U[c]
    ensures Leads(Two(U, c, d, 0, 0, Linked([1], 0), x, Waiting, {2}), [Push([1], true)],
                  Two(U, c, d, 1, 0, Idle, x, Waiting, {2}), U)
  {
    hide Two, Consumers, UsesAt, Leads;
    TwoFacts(U, c, d, 0, 0, Linked([1], 0), x, Waiting, {2});
    TwoFacts(U, c, d, 1, 0, Idle, x, Waiting, {2});
    var s, s' := Two(U, c, d, 0, 0, Linked([1], 0), x, Waiting, {2}), Two(U, c, d, 1, 0, Idle, x, Waiting, {2});
    assert s'.prods == s.prods[0 := Idle];
    assert Swap(s, 0, s', Push([1], true));
    ProducerLeads(s, [1], s', Push([1], true), U);
  }

  lemma {:induction false} AddsAgain(U: Uses, c: nat, d: nat, x: Consumer)
    requires Pair(U, c, d) && First in U[c]
    ensures Leads(Two(U, c, d, 0, 2, Idle, x, Waiting, {1, 2}), [Silent] + [Silent] + [Silent] + [Push([1], true)],
                  Two(U, c, d, 1, 0, Idle, x, Waiting, {2}), U)
  {
    hide Two, Consumers, UsesAt, Leads;
    Prepares(U, c, d, x);
    LoadsHead(U, c, d, x);
    Links(U, c, d, x);
    Swaps(U, c, d, x);
    var s, w := Two(U, c, d, 0, 2, Idle, x, Waiting, {1, 2}), [Silent];
    JoinLeads(s, w, Two(U, c, d, 0, 2, Prepared([1]), x, Waiting, {2}), w,
              Two(U, c, d, 0, 2, Loaded([1], 0), x, Waiting, {2}), U);
    JoinLeads(s, w + w, Two(U, c, d, 0, 2, Loaded([1], 0), x, Waiting, {2}), w,
              Two(U, c, d, 0, 0, Linked([1], 0), x, Waiting, {2}), U);
    JoinLeads(s, w + w + w, Two(U, c, d, 0, 0, Linked([1], 0), x, Waiting, {2}), [Push([1], true)],
              Two(U, c, d, 1, 0, Idle, x, Waiting, {2}), U);
  }

  // ----- the failing run

  /** c has loaded node 1 and read its next pointer. */
  lemma {:induction false} GoesInside(U: Uses, c: nat, d: nat)
    requires Pair(U, c, d) && First in U[c]
    ensures Leads(Start(U, c, d), [Silent] + [Silent], Two(U, c, d, 1, 2, Idle, Next(1, 2), Waiting, {}), U)
  {
    hide Two, Consumers, UsesAt, Leads;
    Loads(U, c, d, 1, 2, Waiting, {});
    Reads(U, c, d, 1, 1, 2, Waiting, {});
    JoinLeads(Start(U, c, d), [Silent], Two(U, c, d, 1, 2, Idle, Entry(1), Waiting, {}), [Silent],
              Two(U, c, d, 1, 2, Idle, Next(1, 2), Waiting, {}), U);
  }

  /** Meanwhile d takes both nodes, one by one or at once. */
  ghost function Meanwhile(d: nat, all: bool): seq<Label> {
    if all then [TakeAll(d, 1)] else ([Silent] + [Silent] + [Pop(d, 1)]) + ([Silent] + [Silent] + [Pop(d, 2)])
  }

  lemma {:induction false} TakesBoth(U: Uses, c: nat, d: nat, all: bool)
    requires Pair(U, c, d) && First in U[c] && (if all then All in U[d] else First in U[d])
    ensures Leads(Two(U, c, d, 1, 2, Idle, Next(1, 2), Waiting, {}), Meanwhile(d, all),
                  Two(U, c, d, 0, 2, Idle, Next(1, 2), Waiting, {1, 2}), U)
  {
    hide Two, Consumers, UsesAt, Leads;
    var x := Next(1, 2);
    TwoSwap(U, c, d, 1, 2, Idle, x, Waiting, {});
    TwoSwap(U, c, d, 0, 2, Idle, x, Waiting, {1, 2});
    if all {
      TakesAll(U, d, c, x);
    } else {
      TakesOne(U, d, c, 1, 2, x, {});
      TakesOne(U, d, c, 2, 2, x, {1});
      assert {1} + {2} == {1, 2} && {} + {1} == {1};
      JoinLeads(Two(U, d, c, 1, 2, Idle, Waiting, x, {}), [Silent] + [Silent] + [Pop(d, 1)],
                Two(U, d, c, 2, 2, Idle, Waiting, x, {1}), [Silent] + [Silent] + [Pop(d, 2)],
                Two(U, d, c, 0, 2, Idle, Waiting, x, {1, 2}), U);
    }
  }

  /** Then a producer adds node 1 again, c completes its compare and swap, which makes node 2 the head, and takes
      node 2, which is not on the list. */
  ghost function Completion(c: nat): seq<Label> {
    ([Silent] + [Silent] + [Silent] + [Push([1], true)]) + ([Pop(c, 1)] + ([Silent] + [Silent] + [Pop(c, 2)]))
  }

  lemma {:induction false} Completes(U: Uses, c: nat, d: nat)
    requires Pair(U, c, d) && First in U[c]
    ensures Leads(Two(U, c, d, 0, 2, Idle, Next(1, 2), Waiting, {1, 2}), Completion(c),
                  Two(U, c, d, 0, 0, Idle, Waiting, Waiting, {1, 2}), U)
  {
    hide Two, Consumers, UsesAt, Leads;
    AddsAgain(U, c, d, Next(1, 2));
    Pops(U, c, d, 1, 2, 0, Waiting, {2});
    TakesOne(U, c, d, 2, 0, Waiting, {1, 2});
    assert {2} + {1} == {1, 2} && {1, 2} + {2} == {1, 2};
    var last := Two(U, c, d, 0, 0, Idle, Waiting, Waiting, {1, 2});
    JoinLeads(Two(U, c, d, 1, 0, Idle, Next(1, 2), Waiting, {2}), [Pop(c, 1)],
              Two(U, c, d, 2, 0, Idle, Waiting, Waiting, {1, 2}), [Silent] + [Silent] + [Pop(c, 2)], last, U);
    JoinLeads(Two(U, c, d, 0, 2, Idle, Next(1, 2), Waiting, {1, 2}), [Silent] + [Silent] + [Silent] + [Push([1], true)],
              Two(U, c, d, 1, 0, Idle, Next(1, 2), Waiting, {2}), [Pop(c, 1)] + ([Silent] + [Silent] + [Pop(c, 2)]),
              last, U);
  }

  ghost function Failure(c: nat, d: nat, all: bool): seq<Label> {
    [Silent] + [Silent] + Meanwhile(d, all) + Completion(c)
  }

  lemma {:induction false} FailureRuns(U: Uses, c: nat, d: nat, all: bool)
    requires Pair(U, c, d) && First in U[c] && (if all then All in U[d] else First in U[d])
    ensures Leads(Start(U, c, d), Failure(c, d, all), Two(U, c, d, 0, 0, Idle, Waiting, Waiting, {1, 2}), U)
  {
    hide Two, Consumers, UsesAt, Leads, Start, Meanwhile, Completion;
    GoesInside(U, c, d);
    TakesBoth(U, c, d, all);
    Completes(U, c, d);
    JoinLeads(Start(U, c, d), [Silent] + [Silent], Two(U, c, d, 1, 2, Idle, Next(1, 2), Waiting, {}), Meanwhile(d, all),
              Two(U, c, d, 0, 2, Idle, Next(1, 2), Waiting, {1, 2}), U);
    JoinLeads(Start(U, c, d), [Silent] + [Silent] + Meanwhile(d, all),
              Two(U, c, d, 0, 2, Idle, Next(1, 2), Waiting, {1, 2}), Completion(c),
              Two(U, c, d, 0, 0, Idle, Waiting, Waiting, {1, 2}), U);
  }

  // ----- no atomic stack does this

  /** The labels can be those of a stack that goes from a to b. */
  ghost predicate StackLeads(a: seq<nat>, labels: seq<Label>, b: seq<nat>) {
    exists stacks: seq<seq<nat>> :: StackRun(stacks, labels) && stacks[0] == a && stacks[|labels|] == b
  }

  /** Where a stack stands after a first step. */
  lemma {:induction false} StackStep(a: seq<nat>, l: Label, rest: seq<Label>, b: seq<nat>) returns (m: seq<nat>)
    requires StackLeads(a, [l] + rest, b)
    ensures Effect(a, l, m) && StackLeads(m, rest, b)
  {
    hide Effect;
    var z := [l] + rest;
    var stacks: seq<seq<nat>> :| StackRun(stacks, z) && stacks[0] == a && stacks[|z|] == b;
    assert z[0] == l;
    m := stacks[1];
    var t := stacks[1..];
    forall i | 0 <= i < |rest| ensures Effect(t[i], rest[i], t[i + 1]) { assert z[i + 1] == rest[i]; }
    assert StackRun(t, rest);
  }

  /** Two silent steps and a removal of the top. */
  lemma {:induction false} StackPops(a: seq<nat>, c: nat, e: nat, rest: seq<Label>, b: seq<nat>)
    requires StackLeads(a, [Silent] + [Silent] + [Pop(c, e)] + rest, b)
    ensures a != [] && a[0] == e && StackLeads(a[1..], rest, b)
  {
    hide StackLeads;
    assert [Silent] + [Silent] + [Pop(c, e)] + rest == [Silent] + ([Silent] + ([Pop(c, e)] + rest));
    var m := StackStep(a, Silent, [Silent] + ([Pop(c, e)] + rest), b);
    m := StackStep(m, Silent, [Pop(c, e)] + rest, b);
    m := StackStep(m, Pop(c, e), rest, b);
  }

  lemma {:induction false} MeanwhileEmpties(d: nat, all: bool, rest: seq<Label>, b: seq<nat>)
    requires StackLeads([1, 2], Meanwhile(d, all) + rest, b)
    ensures StackLeads([], rest, b)
  {
    hide StackLeads;
    if all {
      var m := StackStep([1, 2], TakeAll(d, 1), rest, b);
    } else {
      var x, y := [Silent] + [Silent] + [Pop(d, 1)], [Silent] + [Silent] + [Pop(d, 2)];
      assert x + y + rest == x + (y + rest);
      StackPops([1, 2], d, 1, y + rest, b);
      assert [1, 2][1..] == [2];
      StackPops([2], d, 2, rest, b);
      assert [2][1..] == [];
    }
  }

  lemma {:induction false} CompletionFails(c: nat, b: seq<nat>)
    ensures !StackLeads([], Completion(c), b)
  {
    hide StackLeads;
    if StackLeads([], Completion(c), b) {
      var tail := [Silent] + [Silent] + [Pop(c, 2)];
      assert Completion(c) == [Silent] + ([Silent] + ([Silent] + ([Push([1], true)] + ([Pop(c, 1)] + (tail + [])))));
      var m := StackStep([], Silent, [Silent] + ([Silent] + ([Push([1], true)] + ([Pop(c, 1)] + (tail + [])))), b);
      m := StackStep(m, Silent, [Silent] + ([Push([1], true)] + ([Pop(c, 1)] + (tail + []))), b);
      m := StackStep(m, Silent, [Push([1], true)] + ([Pop(c, 1)] + (tail + [])), b);
      m := StackStep(m, Push([1], true), [Pop(c, 1)] + (tail + []), b);
      m := StackStep(m, Pop(c, 1), tail + [], b);
      StackPops(m, c, 2, [], b);
    }
  }

  lemma {:induction false} FailureIsNoStack(c: nat, d: nat, all: bool)
    ensures !IsStackRun(Failure(c, d, all), [1, 2])
  {
    hide StackLeads, Meanwhile, Completion, Effect;
    var z := Failure(c, d, all);
    if IsStackRun(z, [1, 2]) {
      var stacks: seq<seq<nat>> :| StackRun(stacks, z) && stacks[0] == [1, 2];
      var b := stacks[|z|];
      StackLeadsIntro(stacks, z);
      assert z == [Silent] + ([Silent] + (Meanwhile(d, all) + Completion(c)));
      var m := StackStep([1, 2], Silent, [Silent] + (Meanwhile(d, all) + Completion(c)), b);
      SilentSame([1, 2], m);
      var m' := StackStep(m, Silent, Meanwhile(d, all) + Completion(c), b);
      SilentSame(m, m');
      MeanwhileEmpties(d, all, Completion(c), b);
      CompletionFails(c, b);
    }
  }

  lemma {:induction false} SilentSame(a: seq<nat>, b: seq<nat>)
    requires Effect(a, Silent, b)
    ensures a == b
  {
  }

  lemma {:induction false} StackLeadsIntro(stacks: seq<seq<nat>>, labels: seq<Label>)
    requires StackRun(stacks, labels)
    ensures |stacks| == |labels| + 1 && StackLeads(stacks[0], labels, stacks[|labels|])
  {
    hide Effect;
  }

  // ----- exactly which uses need no lock

  /** All threads are idle and the list holds st. */
  ghost predicate Starts(s: State, st: seq<nat>) {
    && Holds(s.next, s.head, st) && Distinct(st) && (forall n :: n in st ==> n !in s.free)
    && (forall p :: p in s.prods ==> s.prods[p].Idle?) && (forall c :: c in s.cons ==> s.cons[c].Waiting?)
  }

  lemma {:induction false} StartsInv(s: State, st: seq<nat>) returns (own: nat -> Owner)
    requires Starts(s, st)
    ensures Inv(s, st, own)
  {
    hide Holds, Distinct;
    own := (n: nat) => if n in st then InList else Outside;
  }

  ghost predicate UsedRun(states: seq<State>, labels: seq<Label>, st: seq<nat>, U: Uses) {
    Run(states, labels) && Starts(states[0], st) && RunUses(states, labels, U)
  }

  /** Every run of consumers with these uses, beside any producers, is one of an atomic stack. */
  ghost predicate AlwaysStack(U: Uses) {
    forall states: seq<State>, labels: seq<Label>, st: seq<nat> ::
      UsedRun(states, labels, st, U) ==> IsStackRun(labels, st)
  }

  /** llist_del_first beside llist_del_first, or beside llist_del_all, needs a lock: there is a run that no atomic
      stack has. */
  lemma {:induction false} DelFirstFails(U: Uses, c: nat, d: nat, all: bool)
    returns (states: seq<State>, labels: seq<Label>)
    requires Pair(U, c, d) && First in U[c] && (if all then All in U[d] else First in U[d])
    ensures UsedRun(states, labels, [1, 2], U) && !IsStackRun(labels, [1, 2])
  {
    hide Step, RunUses, Two, Failure, IsStackRun;
    labels := Failure(c, d, all);
    FailureRuns(U, c, d, all);
    FailureIsNoStack(c, d, all);
    StartStarts(U, c, d);
    var last := Two(U, c, d, 0, 0, Idle, Waiting, Waiting, {1, 2});
    states :| Path(states, Start(U, c, d), labels, last, U);
  }

  lemma {:induction false} StartStarts(U: Uses, c: nat, d: nat)
    requires Pair(U, c, d)
    ensures Starts(Start(U, c, d), [1, 2])
  {
  }

  /** The uses that need no lock are exactly these: no consumer beside one that uses llist_del_first. */
  lemma {:induction false} NeedsNoLock(U: Uses)
    ensures AlwaysStack(U) <==> LockFree(U)
  {
    hide Run, RunUses, Starts, IsStackRun;
    if LockFree(U) {
      forall states: seq<State>, labels: seq<Label>, st: seq<nat> | UsedRun(states, labels, st, U)
        ensures IsStackRun(labels, st)
      {
        UsedRunSafe(states, labels, st, U);
      }
    } else {
      var c, d :| c in U && d in U && c != d && First in U[c] && U[d] != {};
      var u :| u in U[d];
      var states, labels := DelFirstFails(U, c, d, u.All?);
    }
  }

  lemma {:induction false} UsedRunSafe(states: seq<State>, labels: seq<Label>, st: seq<nat>, U: Uses)
    requires UsedRun(states, labels, st, U) && LockFree(U)
    ensures IsStackRun(labels, st)
  {
    hide Step, Starts, RunUses, LockFree, IsStackRun, Inv;
    var own := StartsInv(states[0], st);
    SafeUses(states, labels, st, own, U);
  }
}
