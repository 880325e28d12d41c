/** Serving the initrd through LoadFile2: the callback, and its publication by two stores. */
module LoadFile2 {
  import opened Wrappers
  import opened Bytes

  datatype Status = Ok | Unsupported | NotFound | InvalidParameter | BufferTooSmall

  /** One call: `size` is absent for a null size pointer, `buffer` for a null buffer. */
  datatype Request = Request(bootPolicy: bool, size: Option<nat>, buffer: Option<seq<u8>>)

  /** How a call ends: its status, the size cell and the buffer afterwards. */
  datatype Reply = Reply(status: Status, size: Option<nat>, buffer: Option<seq<u8>>)

  /** The UEFI caller's side of the contract: a buffer is as long as the size says. */
  predicate Honest(q: Request) {
    q.size.Some? && q.buffer.Some? ==> q.size.value <= |q.buffer.value|
  }

  /** The reply to a request that read file pointer `file` and file length `len`. */
  function Respond(file: Option<seq<u8>>, len: nat, q: Request): Reply
    requires Honest(q) && (file.Some? ==> len <= |file.value|)
  {
    if q.bootPolicy then Reply(Unsupported, q.size, q.buffer)
    else if file.None? || len == 0 then Reply(NotFound, q.size, q.buffer)
    else if q.size.None? then Reply(InvalidParameter, q.size, q.buffer)
    else if q.buffer.None? || q.size.value < len then Reply(BufferTooSmall, Some(len), q.buffer)
    else Reply(Ok, Some(len), Some(file.value[..len] + q.buffer.value[len..]))
  }

  // ---------- The callback ----------

  /** A `usize` in the caller's memory. */
  class SizeCell {
    var value: nat

    constructor (value: nat)
      ensures this.value == value
    {
      this.value := value;
    }
  }

  ghost function CallerView(bootPolicy: bool, bufferSize: SizeCell?, buffer: array?<u8>): Request
    reads bufferSize, buffer
  {
    Request(bootPolicy,
            if bufferSize == null then None else Some(bufferSize.value),
            if buffer == null then None else Some(buffer[..]))
  }

  class Provider {
    var filePtr: array?<u8>
    var fileLen: nat

    constructor ()
      ensures filePtr == null && fileLen == 0
    {
      filePtr, fileLen := null, 0;
    }

    ghost function File(): Option<seq<u8>>
      reads this, filePtr
    {
      if filePtr == null then None else Some(filePtr[..])
    }

    ghost predicate Valid()
      reads this
    {
      filePtr != null ==> fileLen <= filePtr.Length
    }

    /** The two publishing stores. */
    method Install(data: array<u8>)
      modifies this
      ensures Valid() && filePtr == data && fileLen == data.Length
    {
      filePtr := data;
      fileLen := data.Length;
    }

    method Callback(bootPolicy: bool, bufferSize: SizeCell?, buffer: array?<u8>) returns (status: Status)
      requires Valid() && Honest(CallerView(bootPolicy, bufferSize, buffer))
      requires buffer != null ==> buffer != filePtr
      modifies bufferSize, buffer
      ensures var reply := Respond(old(File()), fileLen, old(CallerView(bootPolicy, bufferSize, buffer)));
              reply == Reply(status, CallerView(bootPolicy, bufferSize, buffer).size,
                             CallerView(bootPolicy, bufferSize, buffer).buffer)
      ensures File() == old(File())
      // Case by case: a refusal touches nothing; too small a buffer gets the size; else the file too.
      ensures bootPolicy ==> status == Unsupported
      ensures !bootPolicy && (filePtr == null || fileLen == 0) ==> status == NotFound
      ensures !bootPolicy && filePtr != null && fileLen > 0 && bufferSize == null ==> status == InvalidParameter
      ensures bootPolicy || filePtr == null || fileLen == 0 || bufferSize == null ==>
                && (bufferSize != null ==> bufferSize.value == old(bufferSize.value))
                && (buffer != null ==> buffer[..] == old(buffer[..]))
      ensures !bootPolicy && filePtr != null && fileLen > 0 && bufferSize != null ==>
                && bufferSize.value == fileLen
                && (status == BufferTooSmall <==> buffer == null || old(bufferSize.value) < fileLen)
                && (status == BufferTooSmall && buffer != null ==> buffer[..] == old(buffer[..]))
                && (status != BufferTooSmall ==>
                      && status == Ok
                      && fileLen <= buffer.Length
                      && buffer[..fileLen] == filePtr[..fileLen]
                      && buffer[fileLen..] == old(buffer[fileLen..]))
    {
      if bootPolicy {
        return Unsupported;
      }
      var dataPtr := filePtr;
      var dataLen := fileLen;
      if dataPtr == null || dataLen == 0 {
        return NotFound;
      }
      if bufferSize == null {
        return InvalidParameter;
      }
      var availableSize := bufferSize.value;
      bufferSize.value := dataLen;
      if buffer == null || availableSize < dataLen {
        return BufferTooSmall;
      }
      forall i | 0 <= i < dataLen {
        buffer[i] := dataPtr[i];
      }
      assert buffer[..] == old(filePtr[..])[..dataLen] + old(buffer[..])[dataLen..];
      assert old(File()) == Some(old(filePtr[..]));
      assert File() == Some(filePtr[..]) && filePtr[..] == old(filePtr[..]);
      return Ok;
    }
  }

  // ---------- Interleavings ----------

  /** Single atomic accesses: the two stores of `install`, and for callback number `id` the refusal of
      a boot-policy call, which touches neither atomic, or its load of the pointer and, after that, its
      load of the length, upon which it replies. */
  datatype Event = StorePtr | StoreLen | Refuse(id: nat) | LoadPtr(id: nat) | LoadLen(id: nat)

  /** What is fixed for a history: the file to install and the request of each callback. */
  datatype Setup = Setup(data: seq<u8>, requests: map<nat, Request>)

  predicate ValidSetup(u: Setup) {
    forall id :: id in u.requests ==> Honest(u.requests[id])
  }

  /** The two atomics, how far `install` has come, the pointer loaded by each callback that has not
      replied yet, and the replies given. */
  datatype System = System(
    ptr: Option<seq<u8>>,
    len: nat,
    stores: nat,
    pending: map<nat, Option<seq<u8>>>,
    replies: map<nat, Reply>)

  const CLEARED: System := System(None, 0, 0, map[], map[])

  /** Whether an access can happen next; `install` runs at most once, its stores in order. */
  predicate Enabled(u: Setup, s: System, e: Event) {
    match e
    case StorePtr => s.stores == 0
    case StoreLen => s.stores == 1
    case Refuse(id) => id in u.requests && u.requests[id].bootPolicy && id !in s.replies
    case LoadPtr(id) => id in u.requests && !u.requests[id].bootPolicy && id !in s.pending && id !in s.replies
    case LoadLen(id) => id in s.pending
  }

  predicate Consistent(u: Setup, s: System) {
    && s.ptr == (if s.stores == 0 then None else Some(u.data))
    && s.len == (if s.stores == 2 then |u.data| else 0)
    && s.stores <= 2
    && s.pending.Keys !! s.replies.Keys
    && s.pending.Keys <= u.requests.Keys
    && s.replies.Keys <= u.requests.Keys
    && (forall id :: id in s.pending && s.pending[id].Some? ==> s.pending[id] == Some(u.data) && s.stores > 0)
    && (forall id :: id in s.pending ==> !u.requests[id].bootPolicy)
  }

  function Step(u: Setup, s: System, e: Event): (r: System)
    requires ValidSetup(u) && Consistent(u, s) && Enabled(u, s, e)
    ensures Consistent(u, r)
  {
    match e
    case StorePtr => s.(ptr := Some(u.data), stores := 1)
    case StoreLen => s.(len := |u.data|, stores := 2)
    case Refuse(id) => s.(replies := s.replies[id := Respond(None, 0, u.requests[id])])
    case LoadPtr(id) => s.(pending := s.pending[id := s.ptr])
    case LoadLen(id) =>
      s.(pending := s.pending - {id}, replies := s.replies[id := Respond(s.pending[id], s.len, u.requests[id])])
  }

  /** The state after a history, if every access in it was possible. */
  function Run(u: Setup, events: seq<Event>): (r: Option<System>)
    requires ValidSetup(u)
    ensures r.Some? ==> Consistent(u, r.value)
  {
    if events == [] then Some(CLEARED)
    else
      var s, e := Run(u, events[..|events| - 1]), events[|events| - 1];
      if s.Some? && Enabled(u, s.value, e) then Some(Step(u, s.value, e)) else None
  }

  // ---------- The atomic specification ----------

  /** The specification: installing and each callback happen all at once. */
  datatype Action = Install | Call(id: nat)

  datatype Atomic = Atomic(file: Option<seq<u8>>, replies: map<nat, Reply>)

  /** The reply of a call that happens all at once: the whole file, if there is one. */
  function AtomicReply(file: Option<seq<u8>>, q: Request): Reply
    requires Honest(q)
  {
    Respond(file, if file.Some? then |file.value| else 0, q)
  }

  /** The atomic reply case by case: no reply but the last two touches the caller's memory, and an
      empty file counts as none. */
  lemma AtomicReplyCases(file: Option<seq<u8>>, q: Request)
    requires Honest(q)
    ensures var r, none := AtomicReply(file, q), file.None? || file.value == [];
            && (q.bootPolicy ==> r == Reply(Unsupported, q.size, q.buffer))
            && (!q.bootPolicy && none ==> r == Reply(NotFound, q.size, q.buffer))
            && (!q.bootPolicy && !none && q.size.None? ==> r == Reply(InvalidParameter, None, q.buffer))
            && (!q.bootPolicy && !none && q.size.Some? ==>
                  var n := |file.value|;
                  if q.buffer.None? || q.size.value < n then r == Reply(BufferTooSmall, Some(n), q.buffer)
                  else r.status == Ok && r.size == Some(n) && r.buffer == Some(file.value + q.buffer.value[n..]))
  {
    if file.Some? {
      assert file.value[..|file.value|] == file.value;
    }
  }

  function Act(u: Setup, a: Atomic, action: Action): Atomic
    requires ValidSetup(u) && (action.Call? ==> action.id in u.requests)
  {
    match action
    case Install => a.(file := Some(u.data))
    case Call(id) => a.(replies := a.replies[id := AtomicReply(a.file, u.requests[id])])
  }

  predicate Known(u: Setup, actions: seq<Action>) {
    forall i :: 0 <= i < |actions| && actions[i].Call? ==> actions[i].id in u.requests
  }

  function RunAtomic(u: Setup, actions: seq<Action>): Atomic
    requires ValidSetup(u) && Known(u, actions)
  {
    if actions == [] then Atomic(None, map[])
    else Act(u, RunAtomic(u, actions[..|actions| - 1]), actions[|actions| - 1])
  }

  /** Where an access takes effect: the install at its length store, a callback at its pointer load
      if that finds none and at its length load otherwise. */
  function Effect(s: System, e: Event): (r: seq<Action>)
    ensures |r| <= 1
  {
    match e
    case StorePtr => []
    case StoreLen => [Install]
    case Refuse(id) => [Call(id)]
    case LoadPtr(id) => if s.ptr.None? then [Call(id)] else []
    case LoadLen(id) => if id in s.pending && s.pending[id].Some? then [Call(id)] else []
  }

  function Linearize(u: Setup, events: seq<Event>): (r: seq<Action>)
    requires ValidSetup(u) && Run(u, events).Some?
    ensures Known(u, r)
  {
    if events == [] then []
    else
      var front, e := events[..|events| - 1], events[|events| - 1];
      Linearize(u, front) + Effect(Run(u, front).value, e)
  }

  // ---------- Linearizability ----------

  /** How a history's state and the state of its linearization relate. */
  ghost predicate Simulates(u: Setup, s: System, actions: seq<Action>)
    requires ValidSetup(u) && Known(u, actions)
  {
    var a := RunAtomic(u, actions);
    && a.file == (if s.stores == 2 then Some(u.data) else None)
    && (forall id :: id in s.replies ==> id in a.replies && a.replies[id] == s.replies[id])
    && (forall id :: id in s.pending && s.pending[id].None? ==>
          id in a.replies && id in u.requests && a.replies[id] == Respond(None, 0, u.requests[id]))
    && (forall id :: id in a.replies <==> Call(id) in actions)
    && (forall id :: Call(id) in actions <==> id in s.replies || (id in s.pending && s.pending[id].None?))
    && (Install in actions <==> s.stores == 2)
    && (forall i, j :: 0 <= i < j < |actions| ==> actions[i] != actions[j])
  }

  lemma RunAtomicExtend(u: Setup, actions: seq<Action>, action: Action)
    requires ValidSetup(u) && Known(u, actions) && (action.Call? ==> action.id in u.requests)
    ensures Known(u, actions + [action])
    ensures RunAtomic(u, actions + [action]) == Act(u, RunAtomic(u, actions), action)
  {
  }

  lemma {:induction false} SilentStepSimulates(u: Setup, s: System, actions: seq<Action>, e: Event)
    requires ValidSetup(u) && Consistent(u, s) && Enabled(u, s, e) && Effect(s, e) == []
    requires Known(u, actions) && Simulates(u, s, actions)
    ensures Simulates(u, Step(u, s, e), actions)
  {
  }

  lemma {:induction false} InstallSimulates(u: Setup, s: System, actions: seq<Action>)
    requires ValidSetup(u) && Consistent(u, s) && Enabled(u, s, StoreLen)
    requires Known(u, actions) && Simulates(u, s, actions)
    ensures Known(u, actions + [Install]) && Simulates(u, Step(u, s, StoreLen), actions + [Install])
  {
    RunAtomicExtend(u, actions, Install);
  }

  /** A callback taking effect: its reply, given now or later, is what the atomic call gives now. */
  lemma {:induction false} CallSimulates(u: Setup, s: System, actions: seq<Action>, e: Event, id: nat)
    requires ValidSetup(u) && Consistent(u, s) && Enabled(u, s, e) && Effect(s, e) == [Call(id)]
    requires Known(u, actions) && Simulates(u, s, actions)
    ensures Known(u, actions + [Call(id)]) && Simulates(u, Step(u, s, e), actions + [Call(id)])
  {
    RunAtomicExtend(u, actions, Call(id));
    assert Call(id) !in actions;
    var s', a, a' := Step(u, s, e), RunAtomic(u, actions), RunAtomic(u, actions + [Call(id)]);
    assert a'.replies == a.replies[id := AtomicReply(a.file, u.requests[id])];
    assert id in s'.replies || (id in s'.pending && s'.pending[id].None?);
  }

  lemma {:induction false} StepSimulates(u: Setup, s: System, actions: seq<Action>, e: Event)
    requires ValidSetup(u) && Consistent(u, s) && Enabled(u, s, e)
    requires Known(u, actions) && Simulates(u, s, actions)
    ensures Known(u, actions + Effect(s, e)) && Simulates(u, Step(u, s, e), actions + Effect(s, e))
  {
    if Effect(s, e) == [] {
      assert actions + Effect(s, e) == actions;
      SilentStepSimulates(u, s, actions, e);
    } else if e.StoreLen? {
      InstallSimulates(u, s, actions);
    } else {
      CallSimulates(u, s, actions, e, e.id);
    }
  }

  lemma {:induction false} LinearizationSimulates(u: Setup, events: seq<Event>)
    requires ValidSetup(u) && Run(u, events).Some?
    ensures Simulates(u, Run(u, events).value, Linearize(u, events))
  {
    if events != [] {
      var front := events[..|events| - 1];
      LinearizationSimulates(u, front);
      StepSimulates(u, Run(u, front).value, Linearize(u, front), events[|events| - 1]);
    }
  }

  /** Whether callback `id` has been invoked, and whether it has returned. */
  predicate Invoked(s: System, id: nat) {
    id in s.pending || id in s.replies
  }

  lemma {:induction false} RunSplits(u: Setup, before: seq<Event>, after: seq<Event>)
    requires ValidSetup(u) && Run(u, before + after).Some?
    ensures Run(u, before).Some?
    ensures Linearize(u, before) <= Linearize(u, before + after)
    decreases |after|
  {
    if after == [] {
      assert before + after == before;
    } else {
      var all, front := before + after, after[..|after| - 1];
      assert all[..|all| - 1] == before + front;
      RunSplits(u, before, front);
    }
  }

  /** Publication is linearizable. In every interleaving of one install and any number of callbacks,
      each reply is the one the callback gets when install and callbacks happen all at once, in the
      order of the linearization; nothing takes effect twice. */
  lemma {:induction false} Linearizable(u: Setup, events: seq<Event>)
    requires ValidSetup(u) && Run(u, events).Some?
    ensures var s, order := Run(u, events).value, Linearize(u, events);
            && (forall id :: id in s.replies ==>
                  id in RunAtomic(u, order).replies && RunAtomic(u, order).replies[id] == s.replies[id])
            && (forall i, j :: 0 <= i < j < |order| ==> order[i] != order[j])
  {
    LinearizationSimulates(u, events);
  }

  /** And that order respects real time: cut the history anywhere, and the linearization is cut too,
      with every callback that has returned on the left, every callback not yet invoked not on the
      left, and the install on the left exactly when its length store is. */
  lemma {:induction false} RespectsRealTime(u: Setup, before: seq<Event>, after: seq<Event>)
    requires ValidSetup(u) && Run(u, before + after).Some?
    ensures Run(u, before).Some? && Linearize(u, before) <= Linearize(u, before + after)
    ensures var s, left := Run(u, before).value, Linearize(u, before);
            && (forall id :: id in s.replies ==> Call(id) in left)
            && (forall id :: !Invoked(s, id) ==> Call(id) !in left)
            && (Install in left <==> StoreLen in before)
  {
    RunSplits(u, before, after);
    LinearizationSimulates(u, before);
    StoresCounted(u, before);
  }

  lemma {:induction false} StoresCounted(u: Setup, events: seq<Event>)
    requires ValidSetup(u) && Run(u, events).Some?
    ensures Run(u, events).value.stores == 2 <==> StoreLen in events
  {
    if events != [] {
      var front := events[..|events| - 1];
      StoresCounted(u, front);
      assert events == front + [events[|events| - 1]];
    }
  }

  /** No callback ever sees half of the publication: its reply is that of an empty provider or that
      of one serving the whole file. */
  lemma {:induction false} NoPartialFile(u: Setup, events: seq<Event>, id: nat)
    requires ValidSetup(u) && Run(u, events).Some? && id in Run(u, events).value.replies
    ensures var q, reply := u.requests[id], Run(u, events).value.replies[id];
            reply == AtomicReply(None, q) || reply == AtomicReply(Some(u.data), q)
  {
    var front, e := events[..|events| - 1], events[|events| - 1];
    if id in Run(u, front).value.replies {
      NoPartialFile(u, front, id);
    }
  }

  /** A callback invoked after the install has finished is served the whole file. */
  lemma {:induction false} ServedAfterInstall(u: Setup, before: seq<Event>, after: seq<Event>, id: nat)
    requires ValidSetup(u) && Run(u, before + after).Some?
    requires Run(u, before).Some? && StoreLen in before && !Invoked(Run(u, before).value, id)
    ensures var s := Run(u, before + after).value;
            && (id in s.pending ==> s.pending[id] == Some(u.data))
            && (id in s.replies ==> s.replies[id] == AtomicReply(Some(u.data), u.requests[id]))
            && s.stores == 2
    decreases |after|
  {
    StoresCounted(u, before);
    if after == [] {
      assert before + after == before;
    } else {
      var all, front := before + after, after[..|after| - 1];
      assert all[..|all| - 1] == before + front;
      ServedAfterInstall(u, before, front, id);
    }
  }

  /** The client's view. Once a non-empty file is installed, a client that probes with any size and,
      if told the buffer is too small, calls again with the reported size, has the file after at most
      two calls, whatever other callbacks are interleaved; bytes beyond the file, and everything in
      the buffer of the unsuccessful call, stay as they were. */
  lemma {:induction false} TwoCallsSuffice(u: Setup, before: seq<Event>, after: seq<Event>, first: nat, second: nat)
    requires ValidSetup(u) && Run(u, before + after).Some? && u.data != []
    requires Run(u, before).Some? && StoreLen in before
    requires var s := Run(u, before + after).value;
             && !Invoked(Run(u, before).value, first) && first in s.replies
             && !u.requests[first].bootPolicy && u.requests[first].size.Some?
             && (s.replies[first].status != Ok ==>
                   && !Invoked(Run(u, before).value, second) && second in s.replies
                   && !u.requests[second].bootPolicy && u.requests[second].size == s.replies[first].size
                   && u.requests[second].buffer.Some?)
    ensures var s := Run(u, before + after).value;
            var r1, q1 := s.replies[first], u.requests[first];
            && (r1.status == Ok ==>
                  && q1.buffer.Some? && |u.data| <= |q1.buffer.value|
                  && r1 == Reply(Ok, Some(|u.data|), Some(u.data + q1.buffer.value[|u.data|..])))
            && (r1.status != Ok ==>
                  && r1 == Reply(BufferTooSmall, Some(|u.data|), q1.buffer)
                  && var q2 := u.requests[second];
                     && |u.data| <= |q2.buffer.value|
                     && s.replies[second] == Reply(Ok, Some(|u.data|), Some(u.data + q2.buffer.value[|u.data|..])))
  {
    ServedAfterInstall(u, before, after, first);
    if Run(u, before + after).value.replies[first].status != Ok {
      ServedAfterInstall(u, before, after, second);
    }
    assert u.data[..|u.data|] == u.data;
  }
}
