/**
 * The agent's container registry: a dict from kernel id to the record of the running
 * kernel, updated in place when a kernel is created, used or forgotten. Python dicts keep
 * insertion order, so the registry is the sequence of its ids in that order together with
 * the map from id to record. Idle clean-up walks a snapshot of the ids and picks every
 * kernel that has been unused for longer than the idle timeout.
 */
module Registry {
  import opened Text
  import opened KernelConfig

  /** What the registry keeps about a kernel; times are `time.monotonic()` readings. */
  datatype KernelRecord = KernelRecord(
    lang: string,
    version: int,
    coreSet: set<nat>,
    memLimit: string,
    execTimeout: int,
    numQueries: nat,
    lastUsed: real)

  predicate IsIdle(rec: KernelRecord, now: real, idleTimeout: real) {
    now - rec.lastUsed > idleTimeout
  }

  /** The ids among `keys`, in order, whose kernel is registered and idle. */
  function IdleKernels(keys: seq<string>, records: map<string, KernelRecord>, now: real, idleTimeout: real)
    : (r: seq<string>)
    ensures |r| <= |keys|
    ensures forall i :: 0 <= i < |r| ==> r[i] in keys && r[i] in records && IsIdle(records[r[i]], now, idleTimeout)
  {
    if keys == [] then []
    else
      var k := keys[|keys| - 1];
      IdleKernels(keys[..|keys| - 1], records, now, idleTimeout)
        + (if k in records && IsIdle(records[k], now, idleTimeout) then [k] else [])
  }

  /** A kernel is picked exactly when it is in the snapshot, registered and idle. */
  lemma {:induction false} IdleKernelsExactly(keys: seq<string>, records: map<string, KernelRecord>, now: real, idleTimeout: real)
    ensures forall k :: k in IdleKernels(keys, records, now, idleTimeout) <==>
      k in keys && k in records && IsIdle(records[k], now, idleTimeout)
  {
    if keys != [] {
      var init := keys[..|keys| - 1];
      IdleKernelsExactly(init, records, now, idleTimeout);
      assert keys == init + [keys[|keys| - 1]];
    }
  }

  /** Picking keeps the snapshot's order and picks no kernel twice. */
  lemma {:induction false} IdleKernelsDistinct(keys: seq<string>, records: map<string, KernelRecord>, now: real, idleTimeout: real)
    requires Distinct(keys)
    ensures Distinct(IdleKernels(keys, records, now, idleTimeout))
  {
    if keys != [] {
      var init := keys[..|keys| - 1];
      var k := keys[|keys| - 1];
      assert Distinct(init);
      IdleKernelsDistinct(init, records, now, idleTimeout);
      IdleKernelsExactly(init, records, now, idleTimeout);
      assert k !in init;
    }
  }

  class ContainerRegistry {
    /** The registered ids in insertion order. */
    var order: seq<string>
    var records: map<string, KernelRecord>

    ghost predicate Valid()
      reads this
    {
      Distinct(order) && forall k :: k in order <==> k in records
    }

    /** An agent starts with an empty registry. */
    constructor ()
      ensures Valid() && order == [] && records == map[]
    {
      order := [];
      records := map[];
    }

    /**
     * Records a kernel just created with `limits` on the cores `coreSet`: no queries yet,
     * last used now. Re-registering an id (a restarted kernel) replaces its record in place.
     */
    method Register(id: string, lang: string, limits: KernelLimits, coreSet: set<nat>, now: real)
      requires Valid()
      modifies this
      ensures Valid()
      ensures order == if id in old(records) then old(order) else old(order) + [id]
      ensures records == old(records)[id := KernelRecord(lang, limits.version, coreSet, limits.memLimit,
                                                          limits.execTimeout, 0, now)]
    {
      if id !in records {
        order := order + [id];
      }
      records := records[id := KernelRecord(lang, limits.version, coreSet, limits.memLimit, limits.execTimeout, 0, now)];
    }

    /**
     * A query on kernel `id` at time `now`: marks it used and counts the query. An unknown
     * id raises KeyError, modelled as `found == false` with the registry unchanged.
     */
    method Touch(id: string, now: real) returns (found: bool)
      requires Valid()
      modifies this
      ensures Valid() && order == old(order)
      ensures found == (id in old(records))
      ensures found ==> records == old(records)[id := old(records)[id].(lastUsed := now, numQueries := old(records)[id].numQueries + 1)]
      ensures !found ==> records == old(records)
    {
      found := id in records;
      if found {
        var rec := records[id];
        records := records[id := rec.(lastUsed := now, numQueries := rec.numQueries + 1)];
      }
    }

    /** `del registry[id]`; an unknown id raises KeyError, modelled as `found == false`. */
    method Forget(id: string) returns (found: bool)
      requires Valid()
      modifies this
      ensures Valid()
      ensures found == (id in old(records))
      ensures records == old(records) - {id}
      ensures order == RemoveId(old(order), id)
    {
      found := id in records;
      if found {
        RemoveIdKeeps(order, id);
        order := RemoveId(order, id);
        records := records - {id};
      } else {
        RemoveIdAbsent(order, id);
        assert records - {id} == records;
      }
    }

    /**
     * The kernels idle clean-up destroys at time `now`: walking a snapshot of the ids, every
     * registered kernel last used more than `idleTimeout` ago. A missing record (KeyError)
     * is skipped.
     */
    method CleanOldKernels(now: real, idleTimeout: real) returns (targets: seq<string>)
      ensures targets == IdleKernels(order, records, now, idleTimeout)
    {
      var keys := order;
      targets := [];
      var i := 0;
      while i < |keys|
        invariant 0 <= i <= |keys|
        invariant targets == IdleKernels(keys[..i], records, now, idleTimeout)
      {
        var k := keys[i];
        assert keys[..i + 1][..i] == keys[..i];
        if k in records && IsIdle(records[k], now, idleTimeout) {
          targets := targets + [k];
        }
        i := i + 1;
      }
      assert keys[..i] == keys;
    }
  }

  /** The ids without `id`, order kept. */
  function RemoveId(xs: seq<string>, id: string): (r: seq<string>)
    ensures forall k :: k in r <==> k in xs && k != id
  {
    if xs == [] then []
    else (if xs[0] == id then [] else [xs[0]]) + RemoveId(xs[1..], id)
  }

  lemma {:induction false} RemoveIdKeeps(xs: seq<string>, id: string)
    requires Distinct(xs)
    ensures Distinct(RemoveId(xs, id))
  {
    if xs != [] {
      assert Distinct(xs[1..]);
      RemoveIdKeeps(xs[1..], id);
      assert xs[0] !in xs[1..];
    }
  }

  lemma {:induction false} RemoveIdAbsent(xs: seq<string>, id: string)
    requires id !in xs
    ensures RemoveId(xs, id) == xs
  {
    if xs != [] {
      RemoveIdAbsent(xs[1..], id);
      assert [xs[0]] + xs[1..] == xs;
    }
  }

  /**
   * A kernel used within the idle timeout before `now` is never picked, and one unused for
   * longer always is: the rule compares `now - lastUsed` strictly with the timeout.
   */
  lemma {:induction false} IdleRule(keys: seq<string>, records: map<string, KernelRecord>, now: real, idleTimeout: real, k: string)
    requires k in keys && k in records
    ensures k in IdleKernels(keys, records, now, idleTimeout) <==> now - records[k].lastUsed > idleTimeout
  {
    IdleKernelsExactly(keys, records, now, idleTimeout);
  }
}
