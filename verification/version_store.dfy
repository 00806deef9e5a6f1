/** The model manager's in-memory version store: a Python dict `step -> params`
    whose iteration order is insertion order.  `order` lists the keys in that
    order; `entries` holds the values.  The dict is seeded with `{0: initial}`
    and only ever grows. */
module VersionStore {

  /** A parameter blob tagged with the training step that produced it. */
  datatype Version<P> = Version(step: int, params: P)

  datatype Store<P> = Store(order: seq<int>, entries: map<int, P>)

  /** Well-formed store: non-empty, keys listed once each in strictly
      increasing insertion order, and `order` and `entries` agree on the keys. */
  ghost predicate Valid<P>(s: Store<P>) {
    && |s.order| > 0
    && (forall i, j :: 0 <= i < j < |s.order| ==> s.order[i] < s.order[j])
    && (forall k :: k in s.entries <==> k in s.order)
  }

  /** `{0: initial}`, the seed of the dict. */
  function Init<P>(initial: P): (s: Store<P>)
    ensures Valid(s)
    ensures s.entries.Keys == {0} && s.entries[0] == initial
  {
    Store([0], map[0 := initial])
  }

  /** `list(d.keys())[-1]`: the most recently inserted key, which is the largest. */
  function LastKey<P>(s: Store<P>): (k: int)
    requires Valid(s)
    ensures k in s.entries
    ensures forall k' :: k' in s.entries ==> k' <= k
  {
    var k := s.order[|s.order| - 1];
    assert forall k' :: k' in s.order ==> k' <= k by {
      forall k' | k' in s.order ensures k' <= k {
        var i :| 0 <= i < |s.order| && s.order[i] == k';
        assert i == |s.order| - 1 || s.order[i] < k;
      }
    }
    k
  }

  /** `list(d.values())[-1]`, what `_get_model_params` returns. */
  function Get<P>(s: Store<P>): (p: P)
    requires Valid(s)
    ensures exists k :: k in s.entries && s.entries[k] == p && forall k' :: k' in s.entries ==> k' <= k
  {
    s.entries[LastKey(s)]
  }

  /** `d[step] = params` on an insertion-ordered dict: an existing key keeps its
      position, a new key goes to the end. */
  function Assign<P>(s: Store<P>, step: int, params: P): (r: Store<P>)
    // existing keys keep their positions; only a new key is added, at the end
    ensures s.order <= r.order && step in r.order
    ensures step in s.order ==> r.order == s.order
    ensures step !in s.order ==> |r.order| == |s.order| + 1
    // `step` now maps to `params`, and no other key or value changes
    ensures r.entries.Keys == s.entries.Keys + {step} && r.entries[step] == params
    ensures forall k :: k in s.entries && k != step ==> r.entries[k] == s.entries[k]
    // storing a key at least every stored key keeps the dict well formed, with that key last
    ensures Valid(s) && (forall k :: k in s.entries ==> k <= step) ==> Valid(r) && LastKey(r) == step
  {
    if step in s.order then Store(s.order, s.entries[step := params])
    else
      var r := Store(s.order + [step], s.entries[step := params]);
      assert Valid(s) && (forall k :: k in s.entries ==> k <= step) ==> Valid(r) by {
        if Valid(s) && (forall k :: k in s.entries ==> k <= step) {
          AppendKeepsValid(s, step, params);
        }
      }
      r
  }

  /** Appending a new key larger than every stored key keeps the store well formed. */
  lemma AppendKeepsValid<P>(s: Store<P>, step: int, params: P)
    requires Valid(s) && step !in s.order
    requires forall k :: k in s.entries ==> k <= step
    ensures Valid(Store(s.order + [step], s.entries[step := params]))
  {
    var r := Store(s.order + [step], s.entries[step := params]);
    forall i | 0 <= i < |s.order| ensures s.order[i] < step {
      assert s.order[i] in s.order;
    }
    assert forall i :: 0 <= i < |r.order| - 1 ==> r.order[i] == s.order[i];
  }

  /** The dict half of `_put_model_params`: store the version only when its
      step is at least the last key; a smaller step is not stored at all. */
  function Put<P>(s: Store<P>, v: Version<P>): (r: Store<P>)
    requires Valid(s)
    ensures Valid(r)
    // a smaller step leaves the dict untouched
    ensures v.step < LastKey(s) ==> r == s
    // the last key's entry is overwritten in place, no key is added
    ensures v.step == LastKey(s) ==> r.order == s.order && r.entries == s.entries[v.step := v.params]
    // a larger step is appended as a new key
    ensures v.step > LastKey(s) ==> v.step !in s.entries && r.order == s.order + [v.step]
    ensures v.step >= LastKey(s) ==> r.entries == s.entries[v.step := v.params]
    // keys are never removed and no other key changes value
    ensures s.entries.Keys <= r.entries.Keys
    ensures forall k :: k in s.entries && k != v.step ==> r.entries[k] == s.entries[k]
    // the visible version never regresses
    ensures LastKey(r) == if v.step >= LastKey(s) then v.step else LastKey(s)
    ensures Get(r) == if v.step >= LastKey(s) then v.params else Get(s)
  {
    var last := LastKey(s);
    if v.step >= last then
      Assign(s, v.step, v.params)
    else s
  }

  /** The store after a sequence of puts, applied left to right. */
  function PutAll<P>(s: Store<P>, vs: seq<Version<P>>): (r: Store<P>)
    requires Valid(s)
    ensures Valid(r)
    decreases |vs|
  {
    if |vs| == 0 then s else Put(PutAll(s, vs[..|vs| - 1]), vs[|vs| - 1])
  }

  /** Reference definition: the largest step among the seed key 0 and the puts. */
  function HighWater<P>(vs: seq<Version<P>>): int
    decreases |vs|
  {
    if |vs| == 0 then 0
    else
      var h := HighWater(vs[..|vs| - 1]);
      if vs[|vs| - 1].step > h then vs[|vs| - 1].step else h
  }

  /** Reference definition: the parameters of the LAST put with step `k`, or
      `dflt` when no put has that step. */
  function LastPutAt<P>(vs: seq<Version<P>>, k: int, dflt: P): P
    decreases |vs|
  {
    if |vs| == 0 then dflt
    else if vs[|vs| - 1].step == k then vs[|vs| - 1].params
    else LastPutAt(vs[..|vs| - 1], k, dflt)
  }

  /** After any sequence of puts on the seeded dict, the last key is the largest
      step ever put (or 0), and `get` returns the parameters of the latest put
      carrying that step, whatever order the steps arrived in. */
  lemma {:induction false} LatestIsHighest<P>(initial: P, vs: seq<Version<P>>)
    ensures LastKey(PutAll(Init(initial), vs)) == HighWater(vs)
    ensures Get(PutAll(Init(initial), vs)) == LastPutAt(vs, HighWater(vs), initial)
    decreases |vs|
  {
    if |vs| > 0 {
      var prefix := vs[..|vs| - 1];
      var v := vs[|vs| - 1];
      LatestIsHighest(initial, prefix);
      if v.step < HighWater(prefix) {
        assert LastPutAt(vs, HighWater(vs), initial) == LastPutAt(prefix, HighWater(prefix), initial);
      }
    }
  }

  /** Every key ever stored stays stored: the key set of the dict only grows
      along a sequence of puts. */
  lemma {:induction false} KeysOnlyGrow<P>(s: Store<P>, vs: seq<Version<P>>)
    requires Valid(s)
    ensures s.entries.Keys <= PutAll(s, vs).entries.Keys
    decreases |vs|
  {
    if |vs| > 0 {
      KeysOnlyGrow(s, vs[..|vs| - 1]);
    }
  }
}
