/** The NVMe completion queue of the host driver: a ring in shared memory, written by the device and read by
    the host with a phase bit (Phase Tag, section 4.6 of the NVM Express Base Specification 1.4). Each method
    is one atomic step of the device or of the host, so any sequence of calls is an interleaving. */
module NvmeQueue {
  import opened Arithmetic
  import opened Common

  const W16: nat := 0x1_0000

  datatype Cqe = Cqe(id: nat, status: nat, phase: nat)

  // ----- positions

  /** The phase bit that entry number n of the stream is written with: 1 on the first pass. */
  function PhaseOf(n: nat, depth: nat): nat
    requires depth > 0
  {
    1 - n / depth % 2
  }

  /** update_cq_head, with its 16-bit arithmetic. */
  function NextHead(head: nat, phase: nat, depth: nat): (nat, nat)
    requires phase <= 1
  {
    var tmp := (head + 1) % W16;
    if tmp == depth then (0, 1 - phase) else (tmp, phase)
  }

  lemma {:induction false} NextPosition(n: nat, depth: nat)
    requires depth > 0
    ensures n % depth + 1 == depth ==> (n + 1) % depth == 0 && (n + 1) / depth == n / depth + 1
    ensures n % depth + 1 < depth ==> (n + 1) % depth == n % depth + 1 && (n + 1) / depth == n / depth
  {
    var q, r := n / depth, n % depth;
    assert n == q * depth + r;
    NextOf(q, r, depth);
  }

  lemma {:induction false} NextOf(q: nat, r: nat, depth: nat)
    requires r < depth
    ensures r + 1 == depth ==> (q * depth + r + 1) % depth == 0 && (q * depth + r + 1) / depth == q + 1
    ensures r + 1 < depth ==> (q * depth + r + 1) % depth == r + 1 && (q * depth + r + 1) / depth == q
  {
    if r + 1 == depth {
      assert q * depth + r + 1 == (q + 1) * depth;
      DivModUnique(q * depth + r + 1, depth, q + 1, 0);
    } else {
      DivModUnique(q * depth + r + 1, depth, q, r + 1);
    }
  }

  /** Head and phase follow the number of entries consumed, for every depth that fits in 16 bits. */
  lemma {:induction false} HeadFollows(n: nat, depth: nat)
    requires 0 < depth < W16
    ensures n % depth < depth && PhaseOf(n, depth) <= 1
    ensures NextHead(n % depth, PhaseOf(n, depth), depth) == ((n + 1) % depth, PhaseOf(n + 1, depth))
  {
    NextPosition(n, depth);
  }

  lemma {:induction false} TailFollows(n: nat, depth: nat)
    requires depth > 0
    ensures PhaseOf(n, depth) <= 1
    ensures n % depth + 1 == depth ==> (n + 1) % depth == 0 && PhaseOf(n + 1, depth) == 1 - PhaseOf(n, depth)
    ensures n % depth + 1 != depth ==> (n + 1) % depth == n % depth + 1 && PhaseOf(n + 1, depth) == PhaseOf(n, depth)
  {
    NextPosition(n, depth);
    Remainder(n, depth);
  }

  lemma {:induction false} Remainder(n: nat, depth: nat)
    requires depth > 0
    ensures n % depth < depth
  {
  }

  /** A queue of 65536 entries, the largest a controller may report, never changes its phase: the sum wraps
      to 0 before it is compared with the depth. */
  lemma {:induction false} LargestQueueFails()
    ensures NextHead(W16 - 1, PhaseOf(W16 - 1, W16), W16) != (W16 % W16, PhaseOf(W16, W16))
  {
  }

  /** Head and phase follow the stream on every step exactly when the depth is below 65536. */
  lemma {:induction false} FollowsIffSmall(depth: nat)
    requires 0 < depth <= W16
    ensures depth < W16 <==> forall n: nat :: Follows(n, depth)
  {
    if depth < W16 {
      forall n: nat ensures Follows(n, depth) { HeadFollows(n, depth); }
    } else {
      LargestQueueFails();
      assert !Follows(W16 - 1, W16);
    }
  }

  predicate Follows(n: nat, depth: nat)
    requires depth > 0
  {
    NextHead(n % depth, PhaseOf(n, depth), depth) == ((n + 1) % depth, PhaseOf(n + 1, depth))
  }

  /** Entries less than a whole pass apart are in different slots. */
  lemma {:induction false} DifferentSlots(n: nat, m: nat, depth: nat)
    requires depth > 0 && n < m < n + depth
    ensures n % depth != m % depth
  {
    var q, r, k := n / depth, n % depth, m - n;
    assert n == q * depth + r;
    if r + k < depth {
      DivModUnique(m, depth, q, r + k);
    } else {
      assert m == (q + 1) * depth + (r + k - depth);
      DivModUnique(m, depth, q + 1, r + k - depth);
    }
  }

  lemma {:induction false} OnePassEarlier(n: nat, depth: nat)
    requires depth > 0 && n >= depth
    ensures (n - depth) % depth == n % depth && PhaseOf(n - depth, depth) != PhaseOf(n, depth)
  {
    var q, r := n / depth, n % depth;
    assert n == q * depth + r;
    if q == 0 { assert false; }
    assert n - depth == (q - 1) * depth + r;
    DivModUnique(n - depth, depth, q - 1, r);
  }

  lemma {:induction false} FirstPass(n: nat, depth: nat)
    requires depth > 0 && n < depth
    ensures n % depth == n && PhaseOf(n, depth) == 1
  {
    DivModUnique(n, depth, 0, n);
  }

  datatype Entry = Entry(id: nat, status: nat)

  /** The ring holds the last pass of the stream, and zeroes where nothing has been posted yet. */
  ghost predicate RingOk(ring: seq<Cqe>, log: seq<Entry>, depth: nat) {
    && depth > 0 && |ring| == depth
    && (forall n {:trigger log[n]} :: 0 <= n < |log| && n + depth >= |log| ==>
          ring[n % depth] == Cqe(log[n].id, log[n].status, PhaseOf(n, depth)))
    && (forall j {:trigger ring[j]} :: |log| <= j < depth ==> ring[j].phase == 0)
  }

  lemma {:induction false} RingPost(ring: seq<Cqe>, log: seq<Entry>, depth: nat, e: Entry)
    requires RingOk(ring, log, depth)
    ensures |log| % depth < |ring|
    ensures RingOk(ring[|log| % depth := Cqe(e.id, e.status, PhaseOf(|log|, depth))], log + [e], depth)
  {
    var m := |log|;
    var r := ring[m % depth := Cqe(e.id, e.status, PhaseOf(m, depth))];
    var l := log + [e];
    forall n | 0 <= n < |l| && n + depth >= |l| ensures r[n % depth] == Cqe(l[n].id, l[n].status, PhaseOf(n, depth)) {
      if n < m {
        assert l[n] == log[n];
        DifferentSlots(n, m, depth);
      }
    }
    if m < depth { FirstPass(m, depth); }
  }

  /** The phase bit at the head tells whether the next entry has been posted. */
  lemma {:induction false} PendingIff(ring: seq<Cqe>, log: seq<Entry>, depth: nat, n: nat)
    requires RingOk(ring, log, depth) && n <= |log| <= n + depth
    ensures n % depth < |ring|
    ensures ring[n % depth].phase == PhaseOf(n, depth) <==> n < |log|
    ensures n < |log| ==> ring[n % depth] == Cqe(log[n].id, log[n].status, PhaseOf(n, depth))
  {
    if n < |log| {
      assert log[n] == log[n];
    } else if n < depth {
      FirstPass(n, depth);
    } else {
      OnePassEarlier(n, depth);
      var e := log[n - depth];
    }
  }

  class CompletionQueue {
    const depth: nat
    // shared memory
    const ring: array<Cqe>
    // the device's side: where it posts next, everything it has posted, and how much it has been told is consumed
    var tail: nat
    var tailPhase: nat
    var log: seq<Entry>
    var announced: nat
    // the host's side, and how much it has consumed
    var head: nat
    var phase: nat
    var consumed: nat

    /** init_queue: head 0, phase 1, and the ring cleared. */
    constructor (depth: nat)
      requires 0 < depth < W16
      ensures Valid() && fresh(ring) && log == [] && consumed == 0 && announced == 0 && this.depth == depth
    {
      this.depth := depth;
      ring := new Cqe[depth](_ => Cqe(0, 0, 0));
      tail, tailPhase := 0, 1;
      head, phase := 0, 1;
      log, consumed, announced := [], 0, 0;
    }

    ghost predicate Valid()
      reads this, ring
    {
      && 0 < depth < W16 && ring.Length == depth && RingOk(ring[..], log, depth)
      && announced <= consumed <= |log| <= announced + depth
      && head == consumed % depth && phase == PhaseOf(consumed, depth)
      && tail == |log| % depth && tailPhase == PhaseOf(|log|, depth)
    }

    /** The device posts an entry; it never overruns the announced head. */
    method Post(e: Entry)
      requires Valid() && |log| < announced + depth
      modifies this`log, this`tail, this`tailPhase, ring
      ensures Valid() && log == old(log) + [e]
    {
      hide RingOk, PhaseOf;
      RingPost(ring[..], log, depth, e);
      TailFollows(|log|, depth);
      ghost var r := ring[..];
      ring[tail] := Cqe(e.id, e.status, tailPhase);
      assert ring[..] == r[tail := Cqe(e.id, e.status, tailPhase)];
      log := log + [e];
      if tail + 1 == depth {
        tail, tailPhase := 0, 1 - tailPhase;
      } else {
        tail := tail + 1;
      }
    }

    /** cqe_pending. */
    method Pending() returns (b: bool)
      requires Valid()
      ensures b <==> consumed < |log|
    {
      hide RingOk, PhaseOf;
      PendingIff(ring[..], log, depth, consumed);
      b := ring[head].phase == phase;
    }

    /** The entry that handle_cqe reads. */
    method Read() returns (e: Entry)
      requires Valid() && consumed < |log|
      ensures e == log[consumed]
    {
      hide RingOk, PhaseOf;
      PendingIff(ring[..], log, depth, consumed);
      e := Entry(ring[head].id, ring[head].status);
    }

    method UpdateHead()
      requires Valid() && consumed < |log|
      modifies this`head, this`phase, this`consumed
      ensures Valid() && consumed == old(consumed) + 1
    {
      hide RingOk;
      HeadFollows(consumed, depth);
      var next := NextHead(head, phase, depth);
      head, phase := next.0, next.1;
      consumed := consumed + 1;
    }

    /** ring_cq_doorbell. */
    method RingDoorbell()
      requires Valid()
      modifies this`announced
      ensures Valid() && announced == consumed
    {
      announced := consumed;
    }

    /** The device posts any number of entries that it has room for. */
    method PostSome()
      requires Valid()
      modifies this`log, this`tail, this`tailPhase, ring
      ensures Valid() && old(log) <= log
    {
      hide RingOk, PhaseOf;
      while *
        invariant Valid() && old(log) <= log
        decreases announced + depth - |log|
      {
        if |log| == announced + depth { break; }
        var e: Entry := *;
        Post(e);
      }
    }

    /** nvme_irq, with the device posting before every step of the host. What was posted before the call is
        delivered, and all that is delivered comes once and in order. The loop ends after at most depth entries,
        because the device may not pass the head last announced. */
    method Irq() returns (out: seq<Entry>)
      requires Valid()
      modifies this`head, this`phase, this`consumed, this`announced, this`log, this`tail, this`tailPhase, ring
      ensures Valid() && old(log) <= log && old(|log|) <= consumed && out == log[old(consumed)..consumed]
      ensures |out| <= old(announced) + depth - old(consumed) <= depth
      ensures announced == if out != [] then consumed else old(announced)
    {
      hide RingOk, PhaseOf;
      out := [];
      var found := 0;
      PostSome();
      var more := Pending();
      while more
        invariant Valid() && old(consumed) <= consumed && announced == old(announced) && old(log) <= log
        invariant more ==> consumed < |log|
        invariant !more ==> old(|log|) <= consumed
        invariant out == log[old(consumed)..consumed] && found == |out|
        decreases announced + depth - consumed
      {
        found := found + 1;
        PostSome();
        var e := Read();
        out := out + [e];
        PostSome();
        UpdateHead();
        PostSome();
        more := Pending();
      }
      PostSome();
      if found != 0 { RingDoorbell(); }
    }
  }

  // ----- commands in flight

  /** The driver's table of commands in flight, by 16-bit identifier. Commands are numbered in the order in
      which they were set up; the device completes them in any order. */
  class CommandTable {
    var counter: nat
    // the callback under each identifier
    var table: map<nat, nat>
    // for the account of all commands: whose entry it is, the callbacks so far, and the commands in flight
    var who: map<nat, nat>
    var callbacks: seq<nat>
    var inflight: set<nat>

    constructor ()
      ensures Valid() && DistinctIds() && inflight == {} && callbacks == []
    {
      counter, table, who, callbacks, inflight := 0, map[], map[], [], {};
    }

    ghost predicate Valid()
      reads this
    {
      && counter == |callbacks| % W16
      && table.Keys == who.Keys
      && (forall i :: i in who ==>
           who[i] < |callbacks| && who[i] % W16 == i && table[i] == callbacks[who[i]] && who[i] in inflight)
      && (forall c :: c in inflight ==> c < |callbacks| && c % W16 in who)
    }

    /** Commands in flight have different identifiers. */
    ghost predicate DistinctIds()
      reads this
    {
      forall c, d :: c in inflight && d in inflight && c % W16 == d % W16 ==> c == d
    }

    /** setup_async_command: the next identifier; an entry already in the table under it is taken over. */
    method Setup(callback: nat) returns (id: nat)
      requires Valid()
      modifies this
      ensures Valid() && id == old(|callbacks|) % W16 && callbacks == old(callbacks) + [callback]
      ensures inflight == old(inflight) + {old(|callbacks|)}
      ensures old(DistinctIds()) ==> (DistinctIds() <==> id !in old(table))
    {
      var c := |callbacks|;
      CounterStep(c);
      id := counter;
      counter := (counter + 1) % W16;
      ghost var clash := id in table;
      ghost var d := if clash then who[id] else 0;
      table := table[id := callback];
      who := who[id := c];
      callbacks := callbacks + [callback];
      inflight := inflight + {c};
      assert clash ==> d in inflight && d % W16 == c % W16 && d != c;
    }

    /** handle_cqe and remove_async_command for a command with a callback: the callback under the identifier
        is called, which is the one of the command that the device has completed. */
    method Complete(id: nat, ghost c: nat) returns (callback: nat)
      requires Valid() && DistinctIds() && c in inflight && id == c % W16
      modifies this`table, this`who, this`inflight
      ensures Valid() && DistinctIds() && inflight == old(inflight) - {c} && callback == callbacks[c]
    {
      assert id in who && who[id] % W16 == c % W16;
      callback := table[id];
      inflight := inflight - {who[id]};
      table := table - {id};
      who := who - {id};
    }

    /** The lookup in handle_cqe: an entry that belongs to no command in flight is dropped. */
    method IsKnown(id: nat) returns (known: bool)
      requires Valid()
      ensures known <==> exists c :: c in inflight && c % W16 == id
    {
      known := id in table;
      assert known ==> who[id] in inflight && who[id] % W16 == id;
    }
  }

  // ----- the driver: completions and commands together

  /** Entry i of the log completes command of[i]: it carries that command's identifier, no command is completed
      twice, and it is in flight until the entry has been handled. */
  ghost predicate Matched(log: seq<Entry>, of: seq<nat>, handled: nat, inflight: set<nat>, issued: nat) {
    && |of| == |log| && handled <= |log| && Distinct(of)
    && (forall i :: 0 <= i < |log| ==> log[i].id == of[i] % W16 && of[i] < issued)
    && (forall i :: 0 <= i < |of| ==> (of[i] in inflight <==> i >= handled))
  }

  lemma {:induction false} MatchPost(log: seq<Entry>, of: seq<nat>, handled: nat, inflight: set<nat>, issued: nat,
                                     c: nat, status: nat)
    requires Matched(log, of, handled, inflight, issued) && c in inflight && c < issued && c !in of
    ensures Matched(log + [Entry(c % W16, status)], of + [c], handled, inflight, issued)
  {
    var of' := of + [c];
    forall i, j | 0 <= i < j < |of'| ensures of'[i] != of'[j] { if j == |of| { assert of[i] in of; } }
  }

  lemma {:induction false} MatchSetup(log: seq<Entry>, of: seq<nat>, handled: nat, inflight: set<nat>, issued: nat)
    requires Matched(log, of, handled, inflight, issued)
    ensures Matched(log, of, handled, inflight + {issued}, issued + 1)
  {
  }

  lemma {:induction false} MatchLength(log: seq<Entry>, of: seq<nat>, handled: nat, inflight: set<nat>, issued: nat)
    requires Matched(log, of, handled, inflight, issued)
    ensures |of| == |log| && handled <= |log|
  {
  }

  lemma {:induction false} MatchHandle(log: seq<Entry>, of: seq<nat>, handled: nat, inflight: set<nat>, issued: nat)
    requires Matched(log, of, handled, inflight, issued) && handled < |log|
    ensures |of| == |log| && of[handled] in inflight && of[handled] < issued && log[handled].id == of[handled] % W16
    ensures Matched(log, of, handled + 1, inflight - {of[handled]}, issued)
  {
    forall i | 0 <= i < |of| ensures of[i] in inflight - {of[handled]} <==> i >= handled + 1 {
      assert i != handled ==> of[i] != of[handled];
    }
  }

  /** A callback with the status it is called with. */
  datatype Call = Call(callback: nat, status: nat)

  /** The call of the callback of the command that entry k completes, with the status of the entry. */
  ghost predicate IsCall(call: Call, k: nat, log: seq<Entry>, of: seq<nat>, callbacks: seq<nat>) {
    k < |log| == |of| && of[k] < |callbacks| && call == Call(callbacks[of[k]], log[k].status)
  }

  /** The calls made for the entries from first on. */
  ghost predicate CallsOk(calls: seq<Call>, first: nat, log: seq<Entry>, of: seq<nat>, callbacks: seq<nat>) {
    forall i :: 0 <= i < |calls| ==> IsCall(calls[i], first + i, log, of, callbacks)
  }

  lemma {:induction false} NoCalls(first: nat, log: seq<Entry>, of: seq<nat>, callbacks: seq<nat>)
    ensures CallsOk([], first, log, of, callbacks)
  {
  }

  lemma {:induction false} CallKeeps(call: Call, k: nat, log: seq<Entry>, of: seq<nat>, callbacks: seq<nat>,
                                     log': seq<Entry>, of': seq<nat>, callbacks': seq<nat>)
    requires IsCall(call, k, log, of, callbacks) && log <= log' && of <= of' && callbacks <= callbacks'
             && |of'| == |log'|
    ensures IsCall(call, k, log', of', callbacks')
  {
  }

  lemma {:induction false} CallsKeep(calls: seq<Call>, first: nat, log: seq<Entry>, of: seq<nat>,
                                     callbacks: seq<nat>, log': seq<Entry>, of': seq<nat>, callbacks': seq<nat>)
    requires CallsOk(calls, first, log, of, callbacks) && log <= log' && of <= of' && callbacks <= callbacks'
             && |of'| == |log'|
    ensures CallsOk(calls, first, log', of', callbacks')
  {
    hide IsCall;
    forall i | 0 <= i < |calls| ensures IsCall(calls[i], first + i, log', of', callbacks') {
      CallKeeps(calls[i], first + i, log, of, callbacks, log', of', callbacks');
    }
  }

  lemma {:induction false} CallsMore(calls: seq<Call>, first: nat, log: seq<Entry>, of: seq<nat>,
                                     callbacks: seq<nat>, call: Call)
    requires CallsOk(calls, first, log, of, callbacks) && IsCall(call, first + |calls|, log, of, callbacks)
    ensures CallsOk(calls + [call], first, log, of, callbacks)
  {
    hide IsCall;
    var r := calls + [call];
    forall i | 0 <= i < |r| ensures IsCall(r[i], first + i, log, of, callbacks) {
      if i < |calls| { assert r[i] == calls[i]; }
    }
  }

  class Driver {
    const cq: CompletionQueue
    const cmds: CommandTable
    // the command that each entry completes, and how many entries have been handled
    var of: seq<nat>
    ghost var handled: nat

    constructor (depth: nat)
      requires 0 < depth < W16
      ensures Valid() && fresh(cq) && fresh(cq.ring) && fresh(cmds) && cq.log == [] && cmds.callbacks == []
    {
      cq := new CompletionQueue(depth);
      cmds := new CommandTable();
      of, handled := [], 0;
    }

    ghost predicate Valid()
      reads this, cq, cq.ring, cmds
    {
      && cq.Valid() && cmds.Valid() && cmds.DistinctIds() && cq.consumed <= handled <= cq.consumed + 1
      && Matched(cq.log, of, handled, cmds.inflight, |cmds.callbacks|)
    }

    /** A command is set up; the identifiers in flight stay different exactly when its own was not in the table. */
    method Submit(callback: nat) returns (id: nat)
      requires Valid()
      modifies cmds
      ensures Valid() <==> id !in old(cmds.table)
      ensures cmds.callbacks == old(cmds.callbacks) + [callback] && id == old(|cmds.callbacks|) % W16
    {
      hide RingOk, PhaseOf, Matched;
      MatchSetup(cq.log, of, handled, cmds.inflight, |cmds.callbacks|);
      id := cmds.Setup(callback);
    }

    /** The device completes a command in flight. */
    method Finish(c: nat, status: nat)
      requires Valid() && c in cmds.inflight && c !in of && |cq.log| < cq.announced + cq.depth
      modifies this`of, cq`log, cq`tail, cq`tailPhase, cq.ring
      ensures Valid() && of == old(of) + [c] && cq.log == old(cq.log) + [Entry(c % W16, status)]
    {
      hide RingOk, PhaseOf, Matched;
      MatchPost(cq.log, of, handled, cmds.inflight, |cmds.callbacks|, c, status);
      cq.Post(Entry(c % W16, status));
      of := of + [c];
    }

    /** Other threads set up commands, and the device completes commands, in any order. */
    method Others()
      requires Valid()
      modifies this`of, cq`log, cq`tail, cq`tailPhase, cq.ring, cmds
      ensures Valid() && old(of) <= of && old(cq.log) <= cq.log && old(cmds.callbacks) <= cmds.callbacks
    {
      hide RingOk, PhaseOf, Matched;
      var steps: nat := *;
      while steps > 0
        invariant Valid() && old(of) <= of && old(cq.log) <= cq.log && old(cmds.callbacks) <= cmds.callbacks
      {
        steps := steps - 1;
        var submit: bool := *;
        var value: nat := *;
        if submit {
          if cmds.counter !in cmds.table { var id := Submit(value); }
        } else {
          var c: nat := *;
          if c in cmds.inflight && c !in of && |cq.log| < cq.announced + cq.depth { Finish(c, value); }
        }
      }
    }

    /** handle_cqe: the callback of the command that the entry completes is called, and the command is removed. */
    method Handle() returns (call: Call)
      requires Valid() && handled == cq.consumed < |cq.log|
      modifies this`handled, cmds`table, cmds`who, cmds`inflight
      ensures Valid() && handled == cq.consumed + 1
      ensures call == Call(cmds.callbacks[of[cq.consumed]], cq.log[cq.consumed].status)
    {
      hide RingOk, PhaseOf, Matched;
      var e := cq.Read();
      MatchHandle(cq.log, of, handled, cmds.inflight, |cmds.callbacks|);
      ghost var c := of[handled];
      var known := cmds.IsKnown(e.id);
      assert known;
      var callback := cmds.Complete(e.id, c);
      handled := handled + 1;
      call := Call(callback, e.status);
    }

    /** The log, the commands it completes and the callbacks only grow. */
    ghost predicate Grown(of0: seq<nat>, log0: seq<Entry>, callbacks0: seq<nat>)
      reads this, cq, cmds
    {
      of0 <= of && log0 <= cq.log && callbacks0 <= cmds.callbacks
    }

    /** Other threads and the device, with the calls made so far. */
    method OthersWith(calls: seq<Call>, first: nat)
      requires Valid() && CallsOk(calls, first, cq.log, of, cmds.callbacks)
      modifies this`of, cq`log, cq`tail, cq`tailPhase, cq.ring, cmds
      ensures Valid() && Grown(old(of), old(cq.log), old(cmds.callbacks))
      ensures CallsOk(calls, first, cq.log, of, cmds.callbacks)
    {
      hide RingOk, PhaseOf, Matched, CallsOk;
      ghost var log0, of0, callbacks0 := cq.log, of, cmds.callbacks;
      Others();
      MatchLength(cq.log, of, handled, cmds.inflight, |cmds.callbacks|);
      CallsKeep(calls, first, log0, of0, callbacks0, cq.log, of, cmds.callbacks);
    }

    /** One turn of the loop of nvme_irq. */
    method Turn(calls: seq<Call>, first: nat) returns (calls': seq<Call>)
      requires Valid() && handled == cq.consumed == first + |calls| < |cq.log|
               && CallsOk(calls, first, cq.log, of, cmds.callbacks)
      modifies this`of, this`handled, cq`log, cq`tail, cq`tailPhase, cq`head, cq`phase, cq`consumed, cq.ring, cmds
      ensures Valid() && handled == cq.consumed == old(cq.consumed) + 1
              && Grown(old(of), old(cq.log), old(cmds.callbacks))
      ensures |calls'| == |calls| + 1 && CallsOk(calls', first, cq.log, of, cmds.callbacks)
    {
      hide RingOk, PhaseOf, Matched, CallsOk;
      OthersWith(calls, first);
      ghost var callbacks0 := cmds.callbacks;
      MatchHandle(cq.log, of, handled, cmds.inflight, |cmds.callbacks|);
      var call := Handle();
      CallsMore(calls, first, cq.log, of, cmds.callbacks, call);
      calls' := calls + [call];
      OthersWith(calls', first);
      cq.UpdateHead();
      OthersWith(calls', first);
    }

    /** nvme_irq beside other threads and the device: for each entry delivered, the callback of the command that it
        completes is called with its status, once and in order. */
    method Irq() returns (calls: seq<Call>)
      requires Valid() && handled == cq.consumed
      modifies this`of, this`handled, cq`log, cq`tail, cq`tailPhase, cq`head, cq`phase, cq`consumed, cq`announced,
               cq.ring, cmds
      ensures Valid() && handled == cq.consumed && Grown(old(of), old(cq.log), old(cmds.callbacks))
      ensures old(|cq.log|) <= cq.consumed && |calls| == cq.consumed - old(cq.consumed) <= cq.depth
      ensures CallsOk(calls, old(cq.consumed), cq.log, of, cmds.callbacks)
      ensures cq.announced == if calls != [] then cq.consumed else old(cq.announced)
    {
      hide RingOk, PhaseOf, Matched, CallsOk;
      var first := cq.consumed;
      calls := [];
      MatchLength(cq.log, of, handled, cmds.inflight, |cmds.callbacks|);
      NoCalls(first, cq.log, of, cmds.callbacks);
      OthersWith(calls, first);
      var more := cq.Pending();
      while more
        invariant Valid() && handled == cq.consumed == first + |calls| && cq.announced == old(cq.announced)
        invariant Grown(old(of), old(cq.log), old(cmds.callbacks))
        invariant more ==> cq.consumed < |cq.log|
        invariant !more ==> old(|cq.log|) <= cq.consumed
        invariant CallsOk(calls, first, cq.log, of, cmds.callbacks)
        decreases cq.announced + cq.depth - cq.consumed
      {
        calls := Turn(calls, first);
        more := cq.Pending();
      }
      OthersWith(calls, first);
      if |calls| != 0 { cq.RingDoorbell(); }
    }
  }

  lemma {:induction false} CounterStep(n: nat)
    ensures (n % W16 + 1) % W16 == (n + 1) % W16
  {
  }
}
