/**
 An optimistic store shared by any number of clients.  A call watches a key, reads it and runs a
 pure updater on what it read, then writes the result if nobody wrote the key since the watch;
 otherwise it starts again, up to a retry limit.  `log` is history: the successful writes and the
 refusals, in the order in which they took effect.  Nothing here depends on the updater.
 */
module OptimisticLoop {
  import opened Outcomes

  datatype Updater<!O, !R, !E> = Updater(
    apply: (O, Option<R>, real) -> Result<R, E>,
    key: O -> string,
    admissible: O -> bool)

  datatype Entry<O, R, E> = Entry(client: nat, op: O, now: real, outcome: Result<R, E>)

  datatype Reply<R, E> = Answered(at: nat, outcome: Result<R, E>) | OutOfRetries

  datatype Call<O, R, E> =
    | Idle
    | Starting(op: O, began: nat, tries: nat)
    | Watching(op: O, began: nat, tries: nat, watchedAt: nat)
    | Ready(op: O, began: nat, tries: nat, watchedAt: nat, now: real, updated: R)
    | Returned(op: O, began: nat, reply: Reply<R, E>)

  datatype State<O, R, E> = State(
    records: map<string, R>,
    calls: map<nat, Call<O, R, E>>,
    log: seq<Entry<O, R, E>>)

  datatype Step<O> =
    | Begin(client: nat, op: O)
    | Watch(client: nat)
    | Read(client: nat, now: real)
    | Execute(client: nat)
    | Finish(client: nat)

  function CallOf<O, R, E>(s: State<O, R, E>, client: nat): Call<O, R, E> {
    if client in s.calls then s.calls[client] else Idle
  }

  predicate IsWriteTo<O, R, E>(u: Updater<O, R, E>, e: Entry<O, R, E>, key: string) {
    e.outcome.Ok? && u.key(e.op) == key
  }

  /** Nobody has written `key` since the log had length `from`. */
  predicate Untouched<O, R, E>(u: Updater<O, R, E>, log: seq<Entry<O, R, E>>, from: nat, key: string) {
    forall i | from <= i < |log| :: !IsWriteTo(u, log[i], key)
  }

  function SetCall<O, R, E>(s: State<O, R, E>, client: nat, call: Call<O, R, E>): State<O, R, E> {
    s.(calls := s.calls[client := call])
  }

  /** Append `e` to the log and end its client's call with it. */
  function Answer<O, R, E>(u: Updater<O, R, E>, s: State<O, R, E>, began: nat, e: Entry<O, R, E>)
    : State<O, R, E>
  {
    State(if e.outcome.Ok? then s.records[u.key(e.op) := e.outcome.value] else s.records,
          s.calls[e.client := Returned(e.op, began, Answered(|s.log|, e.outcome))],
          s.log + [e])
  }

  /** One step; a step that is not enabled leaves the state alone. */
  function Do<O, R, E>(u: Updater<O, R, E>, limit: nat, s: State<O, R, E>, step: Step<O>): State<O, R, E> {
    var call := CallOf(s, step.client);
    match step
    case Begin(client, op) =>
      if call.Idle? && u.admissible(op) then SetCall(s, client, Starting(op, |s.log|, 0)) else s
    case Watch(client) =>
      if call.Starting?
      then SetCall(s, client, Watching(call.op, call.began, call.tries, |s.log|)) else s
    case Read(client, now) =>
      if !call.Watching? then s
      else
        var result := u.apply(call.op, Get(s.records, u.key(call.op)), now);
        if result.Ok?
        then SetCall(s, client, Ready(call.op, call.began, call.tries, call.watchedAt, now, result.value))
        else Answer(u, s, call.began, Entry(client, call.op, now, result))
    case Execute(client) =>
      if !call.Ready? then s
      else if Untouched(u, s.log, call.watchedAt, u.key(call.op)) then
        Answer(u, s, call.began, Entry(client, call.op, call.now, Ok(call.updated)))
      else if call.tries + 1 < limit then
        SetCall(s, client, Starting(call.op, call.began, call.tries + 1))
      else SetCall(s, client, Returned(call.op, call.began, OutOfRetries))
    case Finish(client) =>
      if call.Returned? then SetCall(s, client, Idle) else s
  }

  function Run<O, R, E>(u: Updater<O, R, E>, limit: nat, s: State<O, R, E>, steps: seq<Step<O>>)
    : State<O, R, E>
    decreases |steps|
  {
    if steps == [] then s else Run(u, limit, Do(u, limit, s, steps[0]), steps[1..])
  }

  predicate Initial<O, R(==), E>(s: State<O, R, E>) {
    s.records == map[] && s.calls.Keys == {} && |s.log| == 0
  }

  // ---- The locked store behind a log -----------------------------------------------------

  /** One update under a lock: the whole new contents and the result. */
  function Locked<O, R, E>(u: Updater<O, R, E>, records: map<string, R>, op: O, now: real)
    : (map<string, R>, Result<R, E>)
  {
    var result := u.apply(op, Get(records, u.key(op)), now);
    (if result.Ok? then records[u.key(op) := result.value] else records, result)
  }

  /** The records left by running the logged calls one after the other under the lock. */
  function Replay<O, R, E>(u: Updater<O, R, E>, log: seq<Entry<O, R, E>>): map<string, R> {
    if log == [] then map[]
    else
      var last := log[|log| - 1];
      Locked(u, Replay(u, log[..|log| - 1]), last.op, last.now).0
  }

  /** Every logged outcome is the one the locked store gives at that point of the replay. */
  ghost predicate Explained<O, R, E>(u: Updater<O, R, E>, log: seq<Entry<O, R, E>>) {
    forall i | 0 <= i < |log| ::
      log[i].outcome == Locked(u, Replay(u, log[..i]), log[i].op, log[i].now).1
  }

  function WritesTo<O, R, E>(u: Updater<O, R, E>, log: seq<Entry<O, R, E>>, key: string): nat {
    if log == [] then 0
    else
      WritesTo(u, log[..|log| - 1], key) + if IsWriteTo(u, log[|log| - 1], key) then 1 else 0
  }

  ghost predicate NoEntryOf<O, R, E>(log: seq<Entry<O, R, E>>, from: nat, client: nat) {
    forall i | from <= i < |log| :: log[i].client != client
  }

  /** At least `n` writes to `key` landed between log positions `from` and `to`. */
  ghost predicate Lost<O, R, E>(u: Updater<O, R, E>, log: seq<Entry<O, R, E>>, key: string,
                                from: nat, to: nat, n: nat)
  {
    && from <= to <= |log|
    && WritesTo(u, log[..to], key) >= WritesTo(u, log[..from], key) + n
  }

  ghost predicate CallIsSound<O, R, E>(u: Updater<O, R, E>, limit: nat, records: map<string, R>,
                                       log: seq<Entry<O, R, E>>, client: nat, call: Call<O, R, E>)
  {
    match call
    case Idle => true
    case Starting(op, began, tries) =>
      && u.admissible(op) && NoEntryOf(log, began, client) && Lost(u, log, u.key(op), began, |log|, tries)
    case Watching(op, began, tries, watchedAt) =>
      && u.admissible(op) && NoEntryOf(log, began, client)
      && Lost(u, log, u.key(op), began, watchedAt, tries)
    case Ready(op, began, tries, watchedAt, now, updated) =>
      && u.admissible(op) && NoEntryOf(log, began, client)
      && Lost(u, log, u.key(op), began, watchedAt, tries)
      && (Untouched(u, log, watchedAt, u.key(op)) ==>
            u.apply(op, Get(records, u.key(op)), now) == Ok(updated))
    case Returned(op, began, Answered(at, outcome)) =>
      && began <= at < |log|
      && log[at].client == client && log[at].op == op && log[at].outcome == outcome
      && (forall i | began <= i < |log| && i != at :: log[i].client != client)
    case Returned(op, began, OutOfRetries) =>
      && NoEntryOf(log, began, client) && Lost(u, log, u.key(op), began, |log|, limit)
  }

  /** What every reachable state satisfies. */
  ghost predicate Linearizable<O, R, E>(u: Updater<O, R, E>, limit: nat, s: State<O, R, E>) {
    && s.records == Replay(u, s.log)
    && Explained(u, s.log)
    && (forall i | 0 <= i < |s.log| :: u.admissible(s.log[i].op))
    && (forall client <- s.calls :: CallIsSound(u, limit, s.records, s.log, client, s.calls[client]))
  }

  lemma {:induction false} WritesGrow<O, R, E>(u: Updater<O, R, E>, log: seq<Entry<O, R, E>>,
                                               from: nat, key: string)
    requires from <= |log|
    ensures WritesTo(u, log[..from], key) <= WritesTo(u, log, key)
    ensures WritesTo(u, log[..from], key) == WritesTo(u, log, key) <==> Untouched(u, log, from, key)
  {
    if from == |log| {
      assert log[..from] == log;
    } else {
      var shorter := log[..|log| - 1];
      assert shorter[..from] == log[..from];
      WritesGrow(u, shorter, from, key);
      assert Untouched(u, log, from, key)
             <==> Untouched(u, shorter, from, key) && !IsWriteTo(u, log[|log| - 1], key);
    }
  }

  lemma OthersEntryKeepsReady<O, R, E>(u: Updater<O, R, E>, limit: nat, s: State<O, R, E>, began: nat,
                                       e: Entry<O, R, E>, client: nat, call: Call<O, R, E>)
    requires CallIsSound(u, limit, s.records, s.log, client, call) && call.Ready?
    requires e.client != client
    ensures CallIsSound(u, limit, Answer(u, s, began, e).records, s.log + [e], client, call)
  {
    var log := s.log + [e];
    var key := u.key(call.op);
    assert log[..call.began] == s.log[..call.began] && log[..call.watchedAt] == s.log[..call.watchedAt];
    if Untouched(u, log, call.watchedAt, key) {
      assert Untouched(u, s.log, call.watchedAt, key) by {
        forall i | call.watchedAt <= i < |s.log| ensures !IsWriteTo(u, s.log[i], key) {
          assert log[i] == s.log[i];
        }
      }
      assert !IsWriteTo(u, log[|s.log|], key);
    }
  }

  lemma OthersEntryKeepsCall<O, R, E>(u: Updater<O, R, E>, limit: nat, s: State<O, R, E>, began: nat,
                                      e: Entry<O, R, E>, client: nat, call: Call<O, R, E>)
    requires CallIsSound(u, limit, s.records, s.log, client, call)
    requires e.client != client
    ensures CallIsSound(u, limit, Answer(u, s, began, e).records, s.log + [e], client, call)
  {
    var log := s.log + [e];
    if call.Idle? {
      return;
    }
    if call.Ready? {
      OthersEntryKeepsReady(u, limit, s, began, e, client, call);
      return;
    }
    assert log[..call.began] == s.log[..call.began];
    assert log[..|log|] == log && s.log[..|s.log|] == s.log && log[..|s.log|] == s.log;
    assert WritesTo(u, log, u.key(call.op)) >= WritesTo(u, s.log, u.key(call.op));
    if call.Watching? {
      assert log[..call.watchedAt] == s.log[..call.watchedAt];
    }
  }

  /** Appending an entry that the locked store would produce keeps the state linearizable. */
  lemma AnswerIsSound<O, R, E>(u: Updater<O, R, E>, limit: nat, s: State<O, R, E>, began: nat,
                               e: Entry<O, R, E>)
    requires Linearizable(u, limit, s)
    requires u.admissible(e.op)
    requires e.outcome == u.apply(e.op, Get(s.records, u.key(e.op)), e.now)
    requires began <= |s.log| && NoEntryOf(s.log, began, e.client)
    ensures Linearizable(u, limit, Answer(u, s, began, e))
  {
    var t := Answer(u, s, began, e);
    assert t.log[..|s.log|] == s.log;
    forall i | 0 <= i < |t.log|
      ensures t.log[i].outcome == Locked(u, Replay(u, t.log[..i]), t.log[i].op, t.log[i].now).1
    {
      assert t.log[..i] == s.log[..i];
    }
    forall c <- t.calls ensures CallIsSound(u, limit, t.records, t.log, c, t.calls[c]) {
      if c != e.client {
        OthersEntryKeepsCall(u, limit, s, began, e, c, s.calls[c]);
      }
    }
  }

  /** Changing one call alone keeps the state linearizable when the new call is sound. */
  lemma SetCallIsSound<O, R, E>(u: Updater<O, R, E>, limit: nat, s: State<O, R, E>, client: nat,
                                call: Call<O, R, E>)
    requires Linearizable(u, limit, s) && CallIsSound(u, limit, s.records, s.log, client, call)
    ensures Linearizable(u, limit, SetCall(s, client, call))
  {}

  lemma StepIsSound<O, R, E>(u: Updater<O, R, E>, limit: nat, s: State<O, R, E>, step: Step<O>)
    requires Linearizable(u, limit, s)
    ensures Linearizable(u, limit, Do(u, limit, s, step))
    ensures s.log <= Do(u, limit, s, step).log
  {
    var call := CallOf(s, step.client);
    var client := step.client;
    assert CallIsSound(u, limit, s.records, s.log, client, call);
    assert s.log[..|s.log|] == s.log;
    match step
    case Begin(_, op) =>
      if call.Idle? && u.admissible(op) {
        SetCallIsSound(u, limit, s, client, Starting(op, |s.log|, 0));
      }
    case Watch(_) =>
      if call.Starting? {
        SetCallIsSound(u, limit, s, client, Watching(call.op, call.began, call.tries, |s.log|));
      }
    case Read(_, now) =>
      if call.Watching? {
        var result := u.apply(call.op, Get(s.records, u.key(call.op)), now);
        if result.Ok? {
          SetCallIsSound(u, limit, s, client,
                         Ready(call.op, call.began, call.tries, call.watchedAt, now, result.value));
        } else {
          AnswerIsSound(u, limit, s, call.began, Entry(client, call.op, now, result));
        }
      }
    case Execute(_) =>
      if call.Ready? {
        ExecuteIsSound(u, limit, s, client);
      }
    case Finish(_) =>
  }

  /** Failing to execute means that somebody wrote since the read. */
  lemma LosesOneMore<O, R, E>(u: Updater<O, R, E>, log: seq<Entry<O, R, E>>, key: string, from: nat, at: nat, n: nat)
    requires Lost(u, log, key, from, at, n) && !Untouched(u, log, at, key)
    ensures Lost(u, log, key, from, |log|, n + 1)
  {
    WritesGrow(u, log, at, key);
    assert log[..|log|] == log;
  }

  lemma ExecuteIsSound<O, R, E>(u: Updater<O, R, E>, limit: nat, s: State<O, R, E>, client: nat)
    requires Linearizable(u, limit, s) && CallOf(s, client).Ready?
    ensures Linearizable(u, limit, Do(u, limit, s, Execute(client)))
    ensures s.log <= Do(u, limit, s, Execute(client)).log
  {
    var call := CallOf(s, client);
    if Untouched(u, s.log, call.watchedAt, u.key(call.op)) {
      CommitIsSound(u, limit, s, client);
    } else {
      LossIsSound(u, limit, s, client);
    }
  }

  lemma LossIsSound<O, R, E>(u: Updater<O, R, E>, limit: nat, s: State<O, R, E>, client: nat)
    requires Linearizable(u, limit, s) && CallOf(s, client).Ready?
    requires !Untouched(u, s.log, CallOf(s, client).watchedAt, u.key(CallOf(s, client).op))
    ensures Linearizable(u, limit, Do(u, limit, s, Execute(client)))
    ensures Do(u, limit, s, Execute(client)).log == s.log
  {
    ReadyIsSound(u, limit, s, client);
    LostCallIsSound(u, limit, s, client, CallOf(s, client));
    SetCallIsSound(u, limit, s, client, Retried(limit, CallOf(s, client)));
    LossRetries(u, limit, s, client);
  }

  lemma ReadyIsSound<O, R, E>(u: Updater<O, R, E>, limit: nat, s: State<O, R, E>, client: nat)
    requires Linearizable(u, limit, s) && CallOf(s, client).Ready?
    ensures CallIsSound(u, limit, s.records, s.log, client, CallOf(s, client))
  {}

  lemma LossRetries<O, R, E>(u: Updater<O, R, E>, limit: nat, s: State<O, R, E>, client: nat)
    requires CallOf(s, client).Ready?
    requires !Untouched(u, s.log, CallOf(s, client).watchedAt, u.key(CallOf(s, client).op))
    ensures Do(u, limit, s, Execute(client)) == SetCall(s, client, Retried(limit, CallOf(s, client)))
  {}

  /** The call after losing its record. */
  function Retried<O, R, E>(limit: nat, call: Call<O, R, E>): Call<O, R, E>
    requires call.Ready?
  {
    if call.tries + 1 < limit then Starting(call.op, call.began, call.tries + 1)
    else Returned(call.op, call.began, OutOfRetries)
  }

  lemma CommitIsSound<O, R, E>(u: Updater<O, R, E>, limit: nat, s: State<O, R, E>, client: nat)
    requires Linearizable(u, limit, s) && CallOf(s, client).Ready?
    requires Untouched(u, s.log, CallOf(s, client).watchedAt, u.key(CallOf(s, client).op))
    ensures Linearizable(u, limit, Do(u, limit, s, Execute(client)))
    ensures s.log <= Do(u, limit, s, Execute(client)).log
  {
    var call := CallOf(s, client);
    assert CallIsSound(u, limit, s.records, s.log, client, call);
    var e := Entry(client, call.op, call.now, Ok(call.updated));
    AnswerIsSound(u, limit, s, call.began, e);
    assert Do(u, limit, s, Execute(client)) == Answer(u, s, call.began, e);
  }

  lemma LostCallIsSound<O, R, E>(u: Updater<O, R, E>, limit: nat, s: State<O, R, E>, client: nat,
                                 call: Call<O, R, E>)
    requires call.Ready? && CallIsSound(u, limit, s.records, s.log, client, call)
    requires !Untouched(u, s.log, call.watchedAt, u.key(call.op))
    ensures CallIsSound(u, limit, s.records, s.log, client, Retried(limit, call))
  {
    LosesOneMore(u, s.log, u.key(call.op), call.began, call.watchedAt, call.tries);
  }

  // ---- Whole runs ------------------------------------------------------------------------

  lemma InitialIsSound<O, R, E>(u: Updater<O, R, E>, limit: nat, s: State<O, R, E>)
    requires Initial(s)
    ensures Linearizable(u, limit, s)
  {}

  /**
   In every interleaving the shared records are those of the locked store replaying the log; each
   answered call has exactly one entry, appended while it ran, whose outcome is the locked
   store's; a call out of retries has none.
   */
  lemma {:induction false} EveryRunIsLinearizable<O, R, E>(
    u: Updater<O, R, E>, limit: nat, s: State<O, R, E>, steps: seq<Step<O>>)
    requires Linearizable(u, limit, s)
    ensures Linearizable(u, limit, Run(u, limit, s, steps))
    ensures s.log <= Run(u, limit, s, steps).log
    decreases |steps|
  {
    if steps != [] {
      StepIsSound(u, limit, s, steps[0]);
      EveryRunIsLinearizable(u, limit, Do(u, limit, s, steps[0]), steps[1..]);
    }
  }

  lemma StepBeginsNoEarlier<O, R, E>(u: Updater<O, R, E>, limit: nat, s: State<O, R, E>, step: Step<O>,
                                     client: nat, from: nat)
    requires from <= |s.log|
    requires !CallOf(s, client).Idle? ==> CallOf(s, client).began >= from
    ensures var late := CallOf(Do(u, limit, s, step), client); !late.Idle? ==> late.began >= from
  {}

  lemma {:induction false} BeginsNoEarlier<O, R, E>(
    u: Updater<O, R, E>, limit: nat, s: State<O, R, E>, steps: seq<Step<O>>, client: nat, from: nat)
    requires Linearizable(u, limit, s) && from <= |s.log|
    requires !CallOf(s, client).Idle? ==> CallOf(s, client).began >= from
    ensures var late := CallOf(Run(u, limit, s, steps), client); !late.Idle? ==> late.began >= from
    decreases |steps|
  {
    if steps != [] {
      StepIsSound(u, limit, s, steps[0]);
      StepBeginsNoEarlier(u, limit, s, steps[0], client, from);
      BeginsNoEarlier(u, limit, Do(u, limit, s, steps[0]), steps[1..], client, from);
    }
  }

  ghost predicate IsAnswered<O, R, E>(call: Call<O, R, E>) {
    call.Returned? && call.reply.Answered?
  }

  /** The log respects real time: a call begun after another was answered comes later in it. */
  lemma RealTimeOrder<O, R, E>(u: Updater<O, R, E>, limit: nat, s: State<O, R, E>, steps: seq<Step<O>>,
                               first: nat, second: nat)
    requires Linearizable(u, limit, s)
    requires IsAnswered(CallOf(s, first)) && CallOf(s, second).Idle?
    requires IsAnswered(CallOf(Run(u, limit, s, steps), second))
    ensures CallOf(s, first).reply.at < CallOf(Run(u, limit, s, steps), second).reply.at
  {
    EveryRunIsLinearizable(u, limit, s, steps);
    BeginsNoEarlier(u, limit, s, steps, second, |s.log|);
    var t := Run(u, limit, s, steps);
    assert CallIsSound(u, limit, s.records, s.log, first, s.calls[first]);
    assert CallIsSound(u, limit, t.records, t.log, second, t.calls[second]);
  }

  /** A call out of retries took no effect, and at least `limit` other writes landed while it ran. */
  lemma OutOfRetriesMeansContention<O, R, E>(u: Updater<O, R, E>, limit: nat, s: State<O, R, E>,
                                             steps: seq<Step<O>>, client: nat)
    requires Linearizable(u, limit, s)
    requires var call := CallOf(Run(u, limit, s, steps), client);
             call.Returned? && call.reply.OutOfRetries?
    ensures var t := Run(u, limit, s, steps); var call := CallOf(t, client);
            && NoEntryOf(t.log, call.began, client)
            && Lost(u, t.log, u.key(call.op), call.began, |t.log|, limit)
  {
    EveryRunIsLinearizable(u, limit, s, steps);
    var t := Run(u, limit, s, steps);
    assert CallIsSound(u, limit, t.records, t.log, client, t.calls[client]);
  }

  // ---- Progress --------------------------------------------------------------------------

  /** None of these steps is one of `client`. */
  ghost predicate Foreign<O>(client: nat, steps: seq<Step<O>>) {
    forall i | 0 <= i < |steps| :: steps[i].client != client
  }

  /** A call that executes undisturbed is answered with its update, which is stored. */
  lemma UndisturbedExecuteCommits<O, R, E>(u: Updater<O, R, E>, limit: nat, s: State<O, R, E>, client: nat)
    requires CallOf(s, client).Ready?
    requires Untouched(u, s.log, CallOf(s, client).watchedAt, u.key(CallOf(s, client).op))
    ensures var call := CallOf(s, client); var t := Do(u, limit, s, Execute(client));
            && t.records == s.records[u.key(call.op) := call.updated]
            && CallOf(t, client) == Returned(call.op, call.began, Answered(|s.log|, Ok(call.updated)))
            && t.log == s.log + [Entry(client, call.op, call.now, Ok(call.updated))]
  {}

  /** A call whose key was written since its WATCH executes nothing: it starts again, or is out of retries. */
  lemma DisturbedExecuteRetries<O, R, E>(u: Updater<O, R, E>, limit: nat, s: State<O, R, E>, client: nat)
    requires CallOf(s, client).Ready?
    requires !Untouched(u, s.log, CallOf(s, client).watchedAt, u.key(CallOf(s, client).op))
    ensures var call := CallOf(s, client); var t := Do(u, limit, s, Execute(client));
            && t.records == s.records && t.log == s.log
            && CallOf(t, client) == if call.tries + 1 < limit then Starting(call.op, call.began, call.tries + 1)
                                    else Returned(call.op, call.began, OutOfRetries)
  {}

  /** Finishing frees a client whose call has returned, and nobody else. */
  lemma FinishFreesClient<O, R, E>(u: Updater<O, R, E>, limit: nat, s: State<O, R, E>, client: nat)
    ensures var t := Do(u, limit, s, Finish(client));
            && t.records == s.records && t.log == s.log
            && CallOf(t, client) == if CallOf(s, client).Returned? then Idle else CallOf(s, client)
  {}

  /** Steps of other clients leave a call alone. */
  lemma {:induction false} ForeignStepsKeepCall<O, R, E>(
    u: Updater<O, R, E>, limit: nat, s: State<O, R, E>, steps: seq<Step<O>>, client: nat)
    requires Foreign(client, steps)
    ensures CallOf(Run(u, limit, s, steps), client) == CallOf(s, client)
    decreases |steps|
  {
    if steps != [] {
      assert steps[0].client != client;
      ForeignStepsKeepCall(u, limit, Do(u, limit, s, steps[0]), steps[1..], client);
    }
  }

  lemma {:induction false} RunsJoin<O, R, E>(
    u: Updater<O, R, E>, limit: nat, s: State<O, R, E>, first: seq<Step<O>>, second: seq<Step<O>>)
    ensures Run(u, limit, s, first + second) == Run(u, limit, Run(u, limit, s, first), second)
    decreases |first|
  {
    if first == [] {
      assert first + second == second;
    } else {
      assert (first + second)[1..] == first[1..] + second;
      RunsJoin(u, limit, Do(u, limit, s, first[0]), first[1..], second);
    }
  }

  /** A step of the client, then steps of others. */
  lemma StepThenForeign<O, R, E>(u: Updater<O, R, E>, limit: nat, s: State<O, R, E>, step: Step<O>,
                                 others: seq<Step<O>>)
    requires Foreign(step.client, others)
    ensures CallOf(Run(u, limit, s, [step] + others), step.client) == CallOf(Do(u, limit, s, step), step.client)
  {
    assert ([step] + others)[1..] == others;
    ForeignStepsKeepCall(u, limit, Do(u, limit, s, step), others, step.client);
  }

  /** One attempt of a call: WATCH, read and execute, with any steps of other clients in between. */
  function Attempt<O>(client: nat, now: real, afterWatch: seq<Step<O>>, afterRead: seq<Step<O>>): seq<Step<O>> {
    ([Watch(client)] + afterWatch) + ([Read(client, now)] + afterRead) + [Execute(client)]
  }

  /** The attempt step by step: the states at its WATCH, at its read, and at its EXEC. */
  lemma AttemptStates<O, R, E>(u: Updater<O, R, E>, limit: nat, s: State<O, R, E>, client: nat, now: real,
                               afterWatch: seq<Step<O>>, afterRead: seq<Step<O>>)
      returns (read: State<O, R, E>, exec: State<O, R, E>)
    requires CallOf(s, client).Starting? && Foreign(client, afterWatch) && Foreign(client, afterRead)
    ensures read == Run(u, limit, s, [Watch(client)] + afterWatch)
    ensures exec == Run(u, limit, read, [Read(client, now)] + afterRead)
    ensures Run(u, limit, s, Attempt(client, now, afterWatch, afterRead)) == Do(u, limit, exec, Execute(client))
    ensures var c := CallOf(s, client);
            && CallOf(read, client) == Watching(c.op, c.began, c.tries, |s.log|)
            && CallOf(exec, client) == CallOf(Do(u, limit, read, Read(client, now)), client)
  {
    var first, second := [Watch(client)] + afterWatch, [Read(client, now)] + afterRead;
    read := Run(u, limit, s, first);
    exec := Run(u, limit, read, second);
    StepThenForeign(u, limit, s, Watch(client), afterWatch);
    StepThenForeign(u, limit, read, Read(client, now), afterRead);
    RunsJoin(u, limit, s, first + second, [Execute(client)]);
    RunsJoin(u, limit, s, first, second);
    assert Run(u, limit, exec, [Execute(client)]) == Do(u, limit, exec, Execute(client));
  }

  /** What a key held at a log position it still holds when nobody wrote it since. */
  lemma {:induction false} UntouchedKeyStays<O, R, E>(u: Updater<O, R, E>, log: seq<Entry<O, R, E>>, from: nat,
                                                      key: string)
    requires from <= |log| && Untouched(u, log, from, key) && Explained(u, log)
    ensures Get(Replay(u, log), key) == Get(Replay(u, log[..from]), key)
  {
    if from == |log| {
      assert log[..from] == log;
    } else {
      var shorter, last := log[..|log| - 1], log[|log| - 1];
      assert shorter[..from] == log[..from];
      forall i | 0 <= i < |shorter|
        ensures shorter[i].outcome == Locked(u, Replay(u, shorter[..i]), shorter[i].op, shorter[i].now).1
      {
        assert shorter[..i] == log[..i] && shorter[i] == log[i];
      }
      UntouchedKeyStays(u, shorter, from, key);
      assert !IsWriteTo(u, last, key) && last.outcome == Locked(u, Replay(u, shorter), last.op, last.now).1;
    }
  }

  lemma SameKeySameAnswer<O, R, E>(u: Updater<O, R, E>, limit: nat, read: State<O, R, E>, exec: State<O, R, E>,
                                   key: string)
    requires Linearizable(u, limit, read) && Linearizable(u, limit, exec) && read.log <= exec.log
    requires Untouched(u, exec.log, |read.log|, key)
    ensures Get(exec.records, key) == Get(read.records, key)
  {
    UntouchedKeyStays(u, exec.log, |read.log|, key);
    assert exec.log[..|read.log|] == read.log;
  }

  /**
   An attempt during which nobody writes the key ends the call: the answer and the records are those
   of one update under a lock, run on the records found at the end.
   */
  lemma UndisturbedAttemptIsLocked<O, R, E>(u: Updater<O, R, E>, limit: nat, s: State<O, R, E>, client: nat,
                                            now: real, afterWatch: seq<Step<O>>, afterRead: seq<Step<O>>)
      returns (exec: State<O, R, E>)
    requires Linearizable(u, limit, s) && CallOf(s, client).Starting?
    requires Foreign(client, afterWatch) && Foreign(client, afterRead)
    requires Undisturbed(u, limit, s, client, now, afterWatch, afterRead)
    ensures exec == Run(u, limit, s, ([Watch(client)] + afterWatch) + ([Read(client, now)] + afterRead))
    ensures var call := CallOf(s, client);
            var t := Run(u, limit, s, Attempt(client, now, afterWatch, afterRead));
            && t.records == Locked(u, exec.records, call.op, now).0
            && IsAnswered(CallOf(t, client))
            && CallOf(t, client).reply.outcome == Locked(u, exec.records, call.op, now).1
  {
    var call := CallOf(s, client);
    var key := u.key(call.op);
    RunsJoin(u, limit, s, [Watch(client)] + afterWatch, [Read(client, now)] + afterRead);
    var read, last := AttemptStates(u, limit, s, client, now, afterWatch, afterRead);
    exec := last;
    EveryRunIsLinearizable(u, limit, s, [Watch(client)] + afterWatch);
    EveryRunIsLinearizable(u, limit, read, [Read(client, now)] + afterRead);
    SameKeySameAnswer(u, limit, read, exec, key);
    if u.apply(call.op, Get(read.records, key), now).Ok? {
      UndisturbedExecuteCommits(u, limit, exec, client);
    }
  }

  /** Nobody wrote the key of the call between its WATCH and its EXEC. */
  ghost predicate Undisturbed<O, R, E>(u: Updater<O, R, E>, limit: nat, s: State<O, R, E>, client: nat, now: real,
                                       afterWatch: seq<Step<O>>, afterRead: seq<Step<O>>)
    requires CallOf(s, client).Starting?
  {
    Untouched(u, Run(u, limit, s, ([Watch(client)] + afterWatch) + ([Read(client, now)] + afterRead)).log, |s.log|,
              u.key(CallOf(s, client).op))
  }

  /** A client alone: begin, WATCH, read and EXEC are one update under the lock. */
  lemma LoneCallIsLocked<O, R, E>(u: Updater<O, R, E>, limit: nat, s: State<O, R, E>, client: nat, op: O, now: real)
    requires Linearizable(u, limit, s) && CallOf(s, client).Idle? && u.admissible(op)
    ensures var t := Run(u, limit, s, [Begin(client, op)] + Attempt(client, now, [], []));
            && t.records == Locked(u, s.records, op, now).0
            && IsAnswered(CallOf(t, client)) && CallOf(t, client).reply.outcome == Locked(u, s.records, op, now).1
  {
    var begun := Do(u, limit, s, Begin(client, op));
    StepIsSound(u, limit, s, Begin(client, op));
    assert ([Begin(client, op)] + Attempt(client, now, [], []))[1..] == Attempt(client, now, [], []);
    var steps: seq<Step<O>> := ([Watch(client)] + []) + ([Read(client, now)] + []);
    assert steps == [Watch(client), Read(client, now)] && steps[1..] == [Read(client, now)];
    var watching := Do(u, limit, begun, Watch(client));
    assert Run(u, limit, begun, steps) == Run(u, limit, watching, [Read(client, now)]);
    assert Run(u, limit, watching, [Read(client, now)]) == Do(u, limit, watching, Read(client, now));
    var exec := UndisturbedAttemptIsLocked(u, limit, begun, client, now, [], []);
  }

  datatype Try<!O> = Try(now: real, afterWatch: seq<Step<O>>, afterRead: seq<Step<O>>)

  /** From `s` on the attempts of the call follow each other; each reads a record it may update, and loses it. */
  ghost predicate LosesAll<O, R, E>(u: Updater<O, R, E>, limit: nat, s: State<O, R, E>, client: nat,
                                    tries: seq<Try<O>>)
    decreases |tries|
  {
    tries == [] ||
    (&& CallOf(s, client).Starting? && Foreign(client, tries[0].afterWatch) && Foreign(client, tries[0].afterRead)
     && Accepts(u, limit, s, client, tries[0])
     && !Undisturbed(u, limit, s, client, tries[0].now, tries[0].afterWatch, tries[0].afterRead)
     && LosesAll(u, limit, Run(u, limit, s, AttemptOf(client, tries[0])), client, tries[1..]))
  }

  function AttemptOf<O>(client: nat, t: Try<O>): seq<Step<O>> {
    Attempt(client, t.now, t.afterWatch, t.afterRead)
  }

  function AllAttempts<O>(client: nat, tries: seq<Try<O>>): seq<Step<O>>
    decreases |tries|
  {
    if tries == [] then [] else AttemptOf(client, tries[0]) + AllAttempts(client, tries[1..])
  }

  ghost predicate Accepts<O, R, E>(u: Updater<O, R, E>, limit: nat, s: State<O, R, E>, client: nat, t: Try<O>)
    requires CallOf(s, client).Starting?
  {
    var op := CallOf(s, client).op;
    u.apply(op, Get(Run(u, limit, s, [Watch(client)] + t.afterWatch).records, u.key(op)), t.now).Ok?
  }

  lemma DisturbedAttemptRetries<O, R, E>(u: Updater<O, R, E>, limit: nat, s: State<O, R, E>, client: nat, t: Try<O>)
    requires CallOf(s, client).Starting?
    requires Foreign(client, t.afterWatch) && Foreign(client, t.afterRead) && Accepts(u, limit, s, client, t)
    requires !Undisturbed(u, limit, s, client, t.now, t.afterWatch, t.afterRead)
    ensures var c := CallOf(s, client); var late := CallOf(Run(u, limit, s, AttemptOf(client, t)), client);
            late == if c.tries + 1 < limit then Starting(c.op, c.began, c.tries + 1)
                    else Returned(c.op, c.began, OutOfRetries)
  {
    RunsJoin(u, limit, s, [Watch(client)] + t.afterWatch, [Read(client, t.now)] + t.afterRead);
    var read, exec := AttemptStates(u, limit, s, client, t.now, t.afterWatch, t.afterRead);
    var updated := ReadIsReady(u, limit, read, client, t.now);
    DisturbedExecuteRetries(u, limit, exec, client);
  }

  lemma ReadIsReady<O, R, E>(u: Updater<O, R, E>, limit: nat, s: State<O, R, E>, client: nat, now: real)
      returns (updated: R)
    requires CallOf(s, client).Watching?
    requires var op := CallOf(s, client).op; u.apply(op, Get(s.records, u.key(op)), now).Ok?
    ensures var c := CallOf(s, client);
            CallOf(Do(u, limit, s, Read(client, now)), client) ==
              Ready(c.op, c.began, c.tries, c.watchedAt, now, updated)
  {
    var c := CallOf(s, client);
    updated := u.apply(c.op, Get(s.records, u.key(c.op)), now).value;
  }

  /** A call that loses its record `limit` times in a row is out of retries, and before that it starts again. */
  lemma {:induction false} LosingAllMeansOutOfRetries<O, R, E>(
    u: Updater<O, R, E>, limit: nat, s: State<O, R, E>, client: nat, tries: seq<Try<O>>)
    requires CallOf(s, client).Starting? && LosesAll(u, limit, s, client, tries)
    requires CallOf(s, client).tries + |tries| <= limit && CallOf(s, client).tries < limit
    ensures var c := CallOf(s, client);
            CallOf(Run(u, limit, s, AllAttempts(client, tries)), client) ==
              if c.tries + |tries| < limit then Starting(c.op, c.began, c.tries + |tries|)
              else Returned(c.op, c.began, OutOfRetries)
    decreases |tries|
  {
    if tries != [] {
      DisturbedAttemptRetries(u, limit, s, client, tries[0]);
      var next := Run(u, limit, s, AttemptOf(client, tries[0]));
      RunsJoin(u, limit, s, AttemptOf(client, tries[0]), AllAttempts(client, tries[1..]));
      if |tries| > 1 {
        LosingAllMeansOutOfRetries(u, limit, next, client, tries[1..]);
      } else {
        assert AllAttempts(client, tries[1..]) == [];
      }
    }
  }
}
