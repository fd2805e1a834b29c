/** The request window of an I/O thread: requests beyond the queue depth wait, and every completion lets the
    next ones in. Each method is a step of the thread or of the device, so any sequence of calls is an
    interleaving. */
module IoWindow {
  datatype Request = Request(id: nat, write: bool, size: nat)

  function Bytes(s: seq<Request>): nat {
    if s == [] then 0 else Bytes(s[..|s| - 1]) + s[|s| - 1].size
  }

  function Writes(s: seq<Request>): seq<Request> {
    if s == [] then [] else Writes(s[..|s| - 1]) + if s[|s| - 1].write then [s[|s| - 1]] else []
  }

  function Reads(s: seq<Request>): seq<Request> {
    if s == [] then [] else Reads(s[..|s| - 1]) + if s[|s| - 1].write then [] else [s[|s| - 1]]
  }

  type Bag = multiset<Request>

  /** All requests are in one of five places. */
  ghost predicate Sums(all: seq<Request>, device: Bag, finished: seq<Request>, batch: seq<Request>,
                       waiting: seq<Request>, done: seq<Request>) {
    multiset(all) == device + multiset(finished) + multiset(batch) + multiset(waiting) + multiset(done)
  }

  lemma {:induction false} ToDevice(all: seq<Request>, d: Bag, f: seq<Request>, b: seq<Request>, w: seq<Request>,
                                    o: seq<Request>, r: Request)
    requires Sums(all, d, f, b, w, o)
    ensures Sums(all + [r], d + multiset{r}, f, b, w, o)
  {
    Move(d, multiset(f), multiset(b), multiset(w), multiset(o), multiset{r});
  }

  lemma {:induction false} ToWaiting(all: seq<Request>, d: Bag, f: seq<Request>, b: seq<Request>, w: seq<Request>,
                                     o: seq<Request>, r: Request)
    requires Sums(all, d, f, b, w, o)
    ensures Sums(all + [r], d, f, b, w + [r], o)
  {
    Move(d, multiset(f), multiset(b), multiset(w), multiset(o), multiset{r});
  }

  lemma {:induction false} ToFinished(all: seq<Request>, d: Bag, f: seq<Request>, b: seq<Request>, w: seq<Request>,
                                      o: seq<Request>, r: Request)
    requires Sums(all, d, f, b, w, o) && r in d
    ensures Sums(all, d - multiset{r}, f + [r], b, w, o) && |d - multiset{r}| + 1 == |d|
  {
    var e := d - multiset{r};
    assert d == e + multiset{r};
    Move(e, multiset(f), multiset(b), multiset(w), multiset(o), multiset{r});
  }

  lemma {:induction false} ToDone(all: seq<Request>, d: Bag, f: seq<Request>, b: seq<Request>, w: seq<Request>,
                                  o: seq<Request>)
    requires b != [] && Sums(all, d, f, b, w, o)
    ensures Sums(all, d, f, b[1..], w, o + [b[0]])
  {
    SplitFirst(b);
    Move(d, multiset(f), multiset(b[1..]), multiset(w), multiset(o), multiset{b[0]});
  }

  lemma {:induction false} WaitingToDevice(all: seq<Request>, d: Bag, f: seq<Request>, b: seq<Request>,
                                           w: seq<Request>, o: seq<Request>)
    requires w != [] && Sums(all, d, f, b, w, o)
    ensures Sums(all, d + multiset{w[0]}, f, b, w[1..], o) && |d + multiset{w[0]}| == |d| + 1
  {
    SplitFirst(w);
    Move(d, multiset(f), multiset(b), multiset(w[1..]), multiset(o), multiset{w[0]});
  }

  lemma {:induction false} TakeAllFinished(all: seq<Request>, d: Bag, f: seq<Request>, w: seq<Request>, o: seq<Request>)
    requires Sums(all, d, f, [], w, o)
    ensures Sums(all, d, [], f, w, o)
  {
  }

  /** One bag may be added to any of five. */
  lemma {:induction false} Move(d: Bag, f: Bag, b: Bag, w: Bag, o: Bag, x: Bag)
    ensures (d + x) + f + b + w + o == (d + f + b + w + o) + x
    ensures d + (f + x) + b + w + o == (d + f + b + w + o) + x
    ensures d + f + (b + x) + w + o == (d + f + b + w + o) + x
    ensures d + f + b + (w + x) + o == (d + f + b + w + o) + x
    ensures d + f + b + w + (o + x) == (d + f + b + w + o) + x
  {
  }

  class IoThread {
    const queueDepth: nat
    const requestCount: nat
    const window: nat

    var submitted: nat
    var completed: nat
    var completedReads: nat
    var completedWrites: nat
    var bytesTotal: nat
    var bytesRead: nat
    var bytesWritten: nat
    var inflight: nat
    var waiting: seq<Request>
    // the queue filled by completion callbacks, and what the thread has taken from it
    var finished: seq<Request>
    var batch: seq<Request>

    // the requests at the device, those processed, and all those submitted, in order
    ghost var device: multiset<Request>
    ghost var done: seq<Request>
    ghost var all: seq<Request>
    // the initial window has been submitted
    ghost var started: bool

    constructor (queueDepth: nat, requestCount: nat, window: nat)
      ensures Valid() && !started && this.queueDepth == queueDepth && this.requestCount == requestCount
              && this.window == window
      ensures submitted == 0 && device == multiset{} && all == []
    {
      this.queueDepth, this.requestCount, this.window := queueDepth, requestCount, window;
      submitted, completed, completedReads, completedWrites := 0, 0, 0, 0;
      bytesTotal, bytesRead, bytesWritten, inflight := 0, 0, 0, 0;
      waiting, finished, batch, done, all := [], [], [], [], [];
      device := multiset{};
      started := false;
    }

    /** Every request submitted is at the device, finished but not processed, waiting, or done. */
    ghost predicate Accounted()
      reads this
    {
      && Sums(all, device, finished, batch, waiting, done)
      && submitted == |all| && completed == |done|
      && inflight == |device| + |finished| + |batch|
    }

    ghost predicate Counted()
      reads this
    {
      && bytesTotal == Bytes(done) && bytesRead == Bytes(Reads(done)) && bytesWritten == Bytes(Writes(done))
      && completedReads == |Reads(done)| && completedWrites == |Writes(done)|
    }

    /** The window is never exceeded, and nothing waits while it has room. */
    ghost predicate Bounded()
      reads this
    {
      inflight <= queueDepth && (waiting != [] ==> inflight == queueDepth)
    }

    /** The run goes on while there is something left to submit, and never submits too much. */
    ghost predicate Driven()
      reads this
    {
      && submitted <= (if requestCount > window then requestCount else window)
      && (started && window >= 1 ==> submitted > completed || submitted >= requestCount)
      && (!started ==> submitted <= window && done == [] && batch == [])
    }

    ghost predicate Valid()
      reads this
    {
      Accounted() && Counted() && Bounded() && Driven()
    }

    /** submit_to_device. */
    method SubmitToDevice(req: Request)
      modifies this`inflight, this`device
      ensures inflight == old(inflight) + 1 && device == old(device) + multiset{req}
    {
      inflight := inflight + 1;
      device := device + multiset{req};
    }

    /** submit_io_request. */
    method SubmitRequest(req: Request)
      requires Accounted() && Bounded()
      modifies this`submitted, this`inflight, this`device, this`waiting, this`all
      ensures Accounted() && Bounded() && submitted == old(submitted) + 1 && all == old(all) + [req]
    {
      hide Sums;
      ToDevice(all, device, finished, batch, waiting, done, req);
      ToWaiting(all, device, finished, batch, waiting, done, req);
      submitted := submitted + 1;
      all := all + [req];
      if inflight >= queueDepth {
        waiting := waiting + [req];
        return;
      }
      SubmitToDevice(req);
    }

    /** One iteration of the loop that fills the initial window in run_impl. */
    method SubmitInitial(req: Request)
      requires Valid() && !started && submitted < window
      modifies this`submitted, this`inflight, this`device, this`waiting, this`all
      ensures Valid() && submitted == old(submitted) + 1
    {
      SubmitRequest(req);
    }

    ghost method Start()
      requires Valid() && !started && submitted == window
      modifies this`started
      ensures Valid() && started
    {
      started := true;
    }

    /** notify_request_completion, called when the device has completed a request. */
    method NotifyCompletion(req: Request)
      requires Valid() && req in device
      modifies this`finished, this`device
      ensures Valid() && device == old(device) - multiset{req} && finished == old(finished) + [req]
    {
      hide Sums, Bytes, Reads, Writes;
      ToFinished(all, device, finished, batch, waiting, done, req);
      finished := finished + [req];
      device := device - multiset{req};
    }

    /** The part of wait_for_completed_requests under the lock. */
    method TakeFinished()
      requires Valid() && started && finished != [] && batch == []
      modifies this`finished, this`batch
      ensures Valid() && batch == old(finished) && finished == []
    {
      hide Sums, Bytes, Reads, Writes;
      TakeAllFinished(all, device, finished, waiting, done);
      batch := finished;
      finished := [];
    }

    /** The loop in process_completed_request that lets waiting requests in. */
    method LetIn()
      requires Accounted() && inflight <= queueDepth
      modifies this`waiting, this`inflight, this`device
      ensures Accounted() && Bounded() && |waiting| <= old(|waiting|)
    {
      hide Sums;
      while waiting != [] && inflight < queueDepth
        invariant Accounted() && inflight <= queueDepth && |waiting| <= old(|waiting|)
        decreases |waiting|
      {
        var req := waiting[0];
        WaitingToDevice(all, device, finished, batch, waiting, done);
        waiting := waiting[1..];
        SubmitToDevice(req);
      }
    }

    /** The counters in process_completed_request. */
    method CountDone(req: Request)
      requires Counted()
      modifies this`completedReads, this`completedWrites, this`bytesTotal, this`bytesRead, this`bytesWritten, this`done
      ensures Counted() && done == old(done) + [req]
    {
      CountStep(done, req);
      hide Bytes, Reads, Writes;
      bytesTotal := bytesTotal + req.size;
      if req.write {
        completedWrites := completedWrites + 1;
        bytesWritten := bytesWritten + req.size;
      } else {
        completedReads := completedReads + 1;
        bytesRead := bytesRead + req.size;
      }
      done := done + [req];
    }

    /** process_completed_request for the next request taken, with on_request_completed, which submits another
        request as long as the total has not been reached. */
    method ProcessNext(another: Request)
      requires Valid() && started && batch != []
      modifies this
      ensures Valid() && started && batch == old(batch)[1..] && completed == old(completed) + 1
      ensures submitted == if old(submitted) < requestCount then old(submitted) + 1 else old(submitted)
    {
      hide Sums, Bytes, Reads, Writes;
      Retire();
      LetIn();
      if submitted < requestCount {
        SubmitRequest(another);
      }
    }

    /** The first part of process_completed_request. */
    method Retire()
      requires Accounted() && Counted() && inflight <= queueDepth && batch != []
      modifies this`inflight, this`completed, this`batch, this`completedReads, this`completedWrites
      modifies this`bytesTotal, this`bytesRead, this`bytesWritten, this`done
      ensures Accounted() && Counted() && inflight == old(inflight) - 1 && inflight <= queueDepth
      ensures batch == old(batch)[1..] && completed == old(completed) + 1 && done != []
    {
      hide Sums, Bytes, Reads, Writes;
      var req := batch[0];
      ToDone(all, device, finished, batch, waiting, done);
      inflight := inflight - 1;
      completed := completed + 1;
      batch := batch[1..];
      CountDone(req);
    }

    /** An unfinished run has a request in flight. */
    lemma {:induction false} StillRunning()
      requires Valid() && started && queueDepth >= 1 && window >= 1 && completed < requestCount
      ensures inflight > 0
    {
      hide Bytes, Reads, Writes, Sums;
      SumsSize(all, device, finished, batch, waiting, done);
    }

    /** Submitted requests are completed, in flight or waiting. */
    lemma {:induction false} Conserved()
      requires Valid()
      ensures submitted == completed + inflight + |waiting|
    {
      hide Bytes, Reads, Writes, Sums;
      SumsSize(all, device, finished, batch, waiting, done);
    }
  }

  lemma {:induction false} SplitFirst(s: seq<Request>)
    requires s != []
    ensures multiset(s) == multiset{s[0]} + multiset(s[1..]) && multiset(s) == multiset(s[1..]) + multiset{s[0]}
  {
    assert s == [s[0]] + s[1..];
  }

  lemma {:induction false} SumsSize(all: seq<Request>, d: Bag, f: seq<Request>, b: seq<Request>, w: seq<Request>,
                                    o: seq<Request>)
    requires Sums(all, d, f, b, w, o)
    ensures |all| == |d| + |f| + |b| + |w| + |o|
  {
    assert |multiset(all)| == |d| + |multiset(f)| + |multiset(b)| + |multiset(w)| + |multiset(o)|;
  }

  lemma {:induction false} CountStep(s: seq<Request>, r: Request)
    ensures Bytes(s + [r]) == Bytes(s) + r.size
    ensures Reads(s + [r]) == Reads(s) + if r.write then [] else [r]
    ensures Writes(s + [r]) == Writes(s) + if r.write then [r] else []
    ensures Bytes(Reads(s + [r])) == Bytes(Reads(s)) + if r.write then 0 else r.size
    ensures Bytes(Writes(s + [r])) == Bytes(Writes(s)) + if r.write then r.size else 0
  {
    assert (s + [r])[..|s|] == s;
    var a, b := Reads(s + [r]), Writes(s + [r]);
    assert a == if r.write then Reads(s) else Reads(s) + [r];
    assert b == if r.write then Writes(s) + [r] else Writes(s);
    BytesAppend(s, r);
    BytesAppend(Reads(s), r);
    BytesAppend(Writes(s), r);
    hide Bytes, Reads, Writes;
  }

  lemma {:induction false} BytesAppend(s: seq<Request>, r: Request)
    ensures Bytes(s + [r]) == Bytes(s) + r.size
  {
    assert (s + [r])[..|s|] == s;
  }

  /** Bytes read and bytes written add up to the total. */
  lemma {:induction false} BytesAddUp(s: seq<Request>)
    ensures Bytes(s) == Bytes(Reads(s)) + Bytes(Writes(s)) && |s| == |Reads(s)| + |Writes(s)|
  {
    if s != [] {
      hide Bytes, Reads, Writes;
      var n := |s| - 1;
      var front := s[..n];
      assert s == front + [s[n]];
      BytesAddUp(front);
      CountStep(front, s[n]);
    }
  }
}
