/** The model manager: the version store, the bounded queue of versions waiting
    to be written to the checkpoint directory, the message dispatch, and the
    background drain that writes queued versions to storage.

    The checkpoint directory is a map from file name to parameter blob; a
    version is written under the name `f"{step}"`. */
module ModelMgr {
  import opened Wrappers
  import Decimal
  import VS = VersionStore

  type Version<P> = VS.Version<P>

  /** Capacity of the save queue (`Queue(maxsize = 128)`). */
  const QueueCapacity: nat := 128

  /** `model_save_fre`.  Zero would make `update_step % model_save_fre` raise. */
  type SaveInterval = n: int | n != 0 witness 1

  /** Python's `step % fre == 0`.  Python's remainder takes the sign of the
      divisor and Dafny's is never negative, but for a non-zero divisor both are
      zero exactly when `fre` divides `step`. */
  predicate SaveDue(step: int, fre: SaveInterval) {
    step % fre == 0
  }

  datatype Mgr<P> = Mgr(store: VS.Store<P>, queue: seq<Version<P>>, saveFre: SaveInterval)

  /** Invariant of the manager: a well-formed store, a queue within its capacity
      holding only versions whose step is due for saving. */
  ghost predicate Valid<P>(m: Mgr<P>) {
    && VS.Valid(m.store)
    && |m.queue| <= QueueCapacity
    && forall i :: 0 <= i < |m.queue| ==> SaveDue(m.queue[i].step, m.saveFre)
  }

  /** `ModelMgr.__init__`: store seeded with `{0: initial}`, empty queue. */
  function Init<P>(initial: P, fre: SaveInterval): (m: Mgr<P>)
    ensures Valid(m)
    ensures Get(m) == initial && m.queue == []
  {
    Mgr(VS.Init(initial), [], fre)
  }

  /** `Queue.full()`. */
  predicate Full<P>(m: Mgr<P>) {
    |m.queue| >= QueueCapacity
  }

  /** `_put_model_params`.  The dict update and the enqueue decision are
      independent: a due step is offered to the queue even when the dict
      rejected it.  The `while not full: put; sleep; break` loop enqueues at most
      once and never waits, so on a full queue the request is dropped. */
  function Put<P>(m: Mgr<P>, v: Version<P>): (r: Mgr<P>)
    requires Valid(m)
    ensures Valid(r)
    ensures r.saveFre == m.saveFre
    ensures r.store == VS.Put(m.store, v)
    // enqueued exactly when due and the queue has room
    ensures SaveDue(v.step, m.saveFre) && !Full(m) ==> r.queue == m.queue + [v]
    ensures !SaveDue(v.step, m.saveFre) || Full(m) ==> r.queue == m.queue
  {
    var store := VS.Put(m.store, v);
    if SaveDue(v.step, m.saveFre) && !Full(m) then Mgr(store, m.queue + [v], m.saveFre)
    else Mgr(store, m.queue, m.saveFre)
  }

  /** `_get_model_params`: the parameters under the last (= largest) key. */
  function Get<P>(m: Mgr<P>): (p: P)
    requires Valid(m)
    ensures exists k :: k in m.store.entries && m.store.entries[k] == p
                        && forall k' :: k' in m.store.entries ==> k' <= k
  {
    VS.Get(m.store)
  }

  /** Message tags: the two the manager serves and any other member of the enum. */
  datatype MsgType = ModelMgrPutModelParams | ModelMgrGetModelParams | OtherMsgType(name: string)

  /** Message payload: a `(step, params)` pair, or nothing. */
  datatype MsgData<P> = VersionData(version: Version<P>) | NoData

  datatype Msg<P> = Msg(kind: MsgType, data: MsgData<P>)

  /** `NotImplementedError` for an unknown tag; `Unpack` when a PUT carries no
      pair (the tuple unpacking in `_put_model_params` raises). */
  datatype PubError = NotImplemented | Unpack

  /** The manager after a message, and the value returned (`None` for PUT). */
  datatype Reply<P> = Reply(mgr: Mgr<P>, value: Option<P>)

  /** `pub_msg`: three-way dispatch over the message tag. */
  function PubMsg<P>(m: Mgr<P>, msg: Msg<P>): (r: Result<Reply<P>, PubError>)
    requires Valid(m)
    ensures r.Ok? ==> Valid(r.value.mgr)
    // PUT performs the put and returns nothing
    ensures msg.kind == ModelMgrPutModelParams && msg.data.VersionData? ==>
              r == Ok(Reply(Put(m, msg.data.version), None))
    ensures msg.kind == ModelMgrPutModelParams && msg.data.NoData? ==> r == Err(Unpack)
    // GET returns the latest parameters and changes nothing
    ensures msg.kind == ModelMgrGetModelParams ==> r == Ok(Reply(m, Some(Get(m))))
    // any other tag raises
    ensures msg.kind.OtherMsgType? <==> r == Err(NotImplemented)
  {
    match msg.kind
    case ModelMgrPutModelParams =>
      (match msg.data
       case VersionData(v) => Ok(Reply(Put(m, v), None))
       case NoData => Err(Unpack))
    case ModelMgrGetModelParams => Ok(Reply(m, Some(Get(m))))
    case OtherMsgType(_) => Err(NotImplemented)
  }

  /** File name of the checkpoint for `step`: `f"{model_dir}/{update_step}"`. */
  function CheckpointName(step: int): string {
    Decimal.IntToString(step)
  }

  /** Reference definition of the directory after writing `queue` in FIFO order:
      each version is written under its step's name, later writes replacing
      earlier ones. */
  function Drain<P>(queue: seq<Version<P>>, dir: map<string, P>): map<string, P>
    decreases |queue|
  {
    if |queue| == 0 then dir
    else Drain(queue[1..], dir[CheckpointName(queue[0].step) := queue[0].params])
  }

  /** The set of file names a queue writes to. */
  function QueuedNames<P>(queue: seq<Version<P>>): set<string> {
    set i | 0 <= i < |queue| :: CheckpointName(queue[i].step)
  }

  /** Whether some queued version is written to `name`. */
  predicate Writes<P>(queue: seq<Version<P>>, name: string) {
    exists i :: 0 <= i < |queue| && CheckpointName(queue[i].step) == name
  }

  /** The parameters of the last queued version written to `name`. */
  function LastWritten<P>(queue: seq<Version<P>>, name: string): P
    requires Writes(queue, name)
    decreases |queue|
  {
    var last := queue[|queue| - 1];
    if CheckpointName(last.step) == name then last.params
    else
      assert Writes(queue[..|queue| - 1], name) by {
        var i :| 0 <= i < |queue| && CheckpointName(queue[i].step) == name;
        assert i < |queue| - 1 && queue[..|queue| - 1][i] == queue[i];
      }
      LastWritten(queue[..|queue| - 1], name)
  }

  /** Draining writes every queued step's file, the last-dequeued version of a
      repeated step wins, and every other file is left as it was. */
  lemma {:induction false} DrainLastWins<P>(queue: seq<Version<P>>, dir: map<string, P>, name: string)
    ensures name in Drain(queue, dir) <==> name in dir || Writes(queue, name)
    ensures Writes(queue, name) ==> Drain(queue, dir)[name] == LastWritten(queue, name)
    ensures !Writes(queue, name) && name in dir ==> Drain(queue, dir)[name] == dir[name]
    decreases |queue|
  {
    if |queue| > 0 {
      var v := queue[0];
      var rest := queue[1..];
      var dir' := dir[CheckpointName(v.step) := v.params];
      DrainLastWins(rest, dir', name);
      assert Writes(queue, name) <==> CheckpointName(v.step) == name || Writes(rest, name) by {
        if Writes(rest, name) {
          var i :| 0 <= i < |rest| && CheckpointName(rest[i].step) == name;
          assert queue[i + 1] == rest[i];
        }
        if Writes(queue, name) && CheckpointName(v.step) != name {
          var i :| 0 <= i < |queue| && CheckpointName(queue[i].step) == name;
          assert i > 0 && rest[i - 1] == queue[i];
        }
      }
      if Writes(queue, name) {
        LastWrittenSplit(queue, name);
      }
    }
  }

  /** The last write to `name` is the last write in the tail when the tail
      writes it, otherwise it is the head's write. */
  lemma {:induction false} LastWrittenSplit<P>(queue: seq<Version<P>>, name: string)
    requires Writes(queue, name)
    ensures Writes(queue[1..], name) ==> LastWritten(queue, name) == LastWritten(queue[1..], name)
    ensures !Writes(queue[1..], name) ==> LastWritten(queue, name) == queue[0].params
    decreases |queue|
  {
    var rest := queue[1..];
    var last := queue[|queue| - 1];
    if |queue| == 1 {
      assert !Writes(rest, name);
    } else if CheckpointName(last.step) == name {
      assert rest[|rest| - 1] == last;
      assert Writes(rest, name);
    } else {
      var init := queue[..|queue| - 1];
      assert init[1..] == rest[..|rest| - 1];
      assert rest[|rest| - 1] == last;
      assert Writes(init, name) by {
        var i :| 0 <= i < |queue| && CheckpointName(queue[i].step) == name;
        assert i < |queue| - 1 && init[i] == queue[i];
      }
      LastWrittenSplit(init, name);
      if Writes(rest, name) {
        assert Writes(init[1..], name) by {
          var i :| 0 <= i < |rest| && CheckpointName(rest[i].step) == name;
          assert i < |rest| - 1 && init[1..][i] == rest[i];
        }
      }
    }
  }

  /** One pass of `_save_policy`: dequeue in FIFO order until the queue is
      empty, writing each version to its step's file. */
  method SavePolicy<P>(m: Mgr<P>, dir: map<string, P>) returns (m': Mgr<P>, dir': map<string, P>)
    requires Valid(m)
    ensures Valid(m') && m'.queue == []
    ensures m'.store == m.store && m'.saveFre == m.saveFre
    ensures dir'.Keys == dir.Keys + QueuedNames(m.queue)
    ensures dir' == Drain(m.queue, dir)
  {
    var queue := m.queue;
    dir' := dir;
    while |queue| > 0
      invariant Drain(queue, dir') == Drain(m.queue, dir)
      invariant dir.Keys + QueuedNames(m.queue) == dir'.Keys + QueuedNames(queue)
      decreases |queue|
    {
      var v := queue[0];
      assert QueuedNames(queue) == {CheckpointName(v.step)} + QueuedNames(queue[1..]) by {
        forall name | name in QueuedNames(queue)
          ensures name in {CheckpointName(v.step)} + QueuedNames(queue[1..])
        {
          var i :| 0 <= i < |queue| && CheckpointName(queue[i].step) == name;
          if i > 0 {
            assert queue[1..][i - 1] == queue[i];
          }
        }
        forall name | name in QueuedNames(queue[1..]) ensures name in QueuedNames(queue) {
          var i :| 0 <= i < |queue[1..]| && CheckpointName(queue[1..][i].step) == name;
          assert queue[i + 1] == queue[1..][i];
        }
      }
      queue := queue[1..];
      dir' := dir'[CheckpointName(v.step) := v.params];
    }
    m' := Mgr(m.store, [], m.saveFre);
  }

  /** The manager after a sequence of puts (with no drain in between). */
  function PutAll<P>(m: Mgr<P>, vs: seq<Version<P>>): (r: Mgr<P>)
    requires Valid(m)
    ensures Valid(r)
    decreases |vs|
  {
    if |vs| == 0 then m else Put(PutAll(m, vs[..|vs| - 1]), vs[|vs| - 1])
  }

  /** Reference definition: the puts whose step is due for saving, in order. */
  function DueVersions<P>(vs: seq<Version<P>>, fre: SaveInterval): seq<Version<P>>
    decreases |vs|
  {
    if |vs| == 0 then []
    else
      var due := DueVersions(vs[..|vs| - 1], fre);
      if SaveDue(vs[|vs| - 1].step, fre) then due + [vs[|vs| - 1]] else due
  }

  /** The first `QueueCapacity` elements of `s`, or all of `s` when it is shorter. */
  function Capped<T>(s: seq<T>): (r: seq<T>)
    ensures |r| <= QueueCapacity
    ensures r <= s
    ensures |s| <= QueueCapacity ==> r == s
  {
    if |s| <= QueueCapacity then s else s[..QueueCapacity]
  }

  /** Starting from an empty queue, the queue holds exactly the first 128 due
      versions in arrival order, whether or not the dict accepted them: every
      later due request is dropped and nothing waits. */
  lemma {:induction false} QueueKeepsFirstDue<P>(m: Mgr<P>, vs: seq<Version<P>>)
    requires Valid(m) && m.queue == []
    ensures PutAll(m, vs).queue == Capped(DueVersions(vs, m.saveFre))
    decreases |vs|
  {
    if |vs| > 0 {
      var prefix := vs[..|vs| - 1];
      var v := vs[|vs| - 1];
      QueueKeepsFirstDue(m, prefix);
      SaveFreKept(m, prefix);
      var before := PutAll(m, prefix);
      var due := DueVersions(prefix, m.saveFre);
      CappedStep(due, v, SaveDue(v.step, m.saveFre));
    }
  }

  /** How `Capped` moves when one more element may be appended. */
  lemma CappedStep<T>(due: seq<T>, v: T, append: bool)
    ensures append && |Capped(due)| < QueueCapacity ==> Capped(due + [v]) == Capped(due) + [v]
    ensures append && |Capped(due)| >= QueueCapacity ==> Capped(due + [v]) == Capped(due)
  {
    if |due| >= QueueCapacity {
      assert (due + [v])[..QueueCapacity] == due[..QueueCapacity];
    }
  }

  /** Puts never change the save interval. */
  lemma {:induction false} SaveFreKept<P>(m: Mgr<P>, vs: seq<Version<P>>)
    requires Valid(m)
    ensures PutAll(m, vs).saveFre == m.saveFre
    decreases |vs|
  {
    if |vs| > 0 {
      SaveFreKept(m, vs[..|vs| - 1]);
    }
  }

  /** The store half of a run of puts is the version store's own run. */
  lemma {:induction false} StoreOfPutAll<P>(m: Mgr<P>, vs: seq<Version<P>>)
    requires Valid(m)
    ensures PutAll(m, vs).store == VS.PutAll(m.store, vs)
    decreases |vs|
  {
    if |vs| > 0 {
      StoreOfPutAll(m, vs[..|vs| - 1]);
    }
  }

  /** `get` is answered from the store alone: after any sequence of puts on a
      fresh manager it returns the parameters of the latest put of the largest
      step, however full the save queue is. */
  lemma LatestAfterPuts<P>(initial: P, fre: SaveInterval, vs: seq<Version<P>>)
    ensures Get(PutAll(Init(initial, fre), vs)) == VS.LastPutAt(vs, VS.HighWater(vs), initial)
  {
    StoreOfPutAll(Init(initial, fre), vs);
    VS.LatestIsHighest(initial, vs);
  }

  /** With a save interval of 10, puts of steps 5, 10 and 15 queue only step 10
      for saving, and `get` then returns the parameters of step 15. */
  lemma SaveIntervalScenario<P>(initial: P, a: P, b: P, c: P)
    ensures var m := PutAll(Init(initial, 10), [VS.Version(5, a), VS.Version(10, b), VS.Version(15, c)]);
            m.queue == [VS.Version(10, b)] && Get(m) == c
  {
    var vs := [VS.Version(5, a), VS.Version(10, b), VS.Version(15, c)];
    assert vs[..2][..1] == [vs[0]] && vs[..2][..1][..0] == [];
    assert vs[..2] == [vs[0], vs[1]];
    QueueKeepsFirstDue(Init(initial, 10), vs);
    assert !SaveDue(5, 10) && SaveDue(10, 10) && !SaveDue(15, 10);
    assert DueVersions(vs[..2][..1], 10) == [];
    assert DueVersions(vs[..2], 10) == [vs[1]];
    assert DueVersions(vs, 10) == [vs[1]];
    LatestAfterPuts(initial, 10, vs);
    assert VS.HighWater(vs[..2][..1]) == 5;
    assert VS.HighWater(vs[..2]) == 10;
    assert VS.HighWater(vs) == 15;
  }
}
