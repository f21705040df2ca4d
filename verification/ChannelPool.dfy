/**
 prv/remsvc_provider/hooks/remsvc.py: the module-level pool of gRPC channels.
 */
module ChannelPool {
  import opened Common

  datatype Params = Params(target: string, useSsl: bool, caCert: Option<Bytes>)

  datatype Key = Key(target: string, useSsl: bool, caDigest: string)

  /** hashlib.sha256(...).hexdigest(), as far as the pool depends on it. */
  type Digest = Bytes -> string

  ghost predicate IsDigest(sha: Digest) {
    && (forall a, b :: sha(a) == sha(b) ==> a == b)
    && forall a :: sha(a) != ""
  }

  function CaDigest(sha: Digest, caCert: Option<Bytes>): string {
    match caCert
    case Some(pem) => if pem != [] then sha(pem) else ""
    case None => ""
  }

  /** _channel_pool_key */
  function KeyOf(sha: Digest, p: Params): Key {
    Key(p.target, p.useSsl, CaDigest(sha, p.caCert))
  }

  /** Two calls share a channel's key exactly when they agree on target, TLS and certificate, where an absent
      and an empty certificate are the same. */
  lemma SameKeyIff(sha: Digest, p: Params, q: Params)
    requires IsDigest(sha)
    ensures KeyOf(sha, p) == KeyOf(sha, q) <==>
              && p.target == q.target && p.useSsl == q.useSsl
              && (p.caCert == q.caCert
                  || (p.caCert in {None, Some([])} && q.caCert in {None, Some([])}))
  {
    if p.caCert.Some? && q.caCert.Some? {
      assert sha(p.caCert.value) == sha(q.caCert.value) ==> p.caCert.value == q.caCert.value;
    }
  }

  // ----- one call --------------------------------------------------------------------------

  datatype Connectivity = IDLE | CONNECTING | READY | TRANSIENT_FAILURE | SHUTDOWN

  /** Channel number id, with what it was built from. */
  datatype Channel = Channel(id: nat, built: Params)

  /** A call, and what get_state would report for each channel at that moment (None: it raises). */
  datatype Call = Call(params: Params, state: Channel -> Option<Connectivity>)

  predicate Usable(call: Call, ch: Channel) {
    call.state(ch).Some? && call.state(ch).value != SHUTDOWN
  }

  /** The pool and the number of channels created so far. */
  datatype Pool = Pool(channels: map<Key, Channel>, created: nat)

  predicate Hits(sha: Digest, pool: Pool, call: Call) {
    var key := KeyOf(sha, call.params);
    key in pool.channels && Usable(call, pool.channels[key])
  }

  predicate Evicts(sha: Digest, pool: Pool, call: Call) {
    var key := KeyOf(sha, call.params);
    key in pool.channels && !Usable(call, pool.channels[key])
  }

  function After(sha: Digest, pool: Pool, call: Call): Pool {
    if Hits(sha, pool, call) then pool
    else Pool(pool.channels[KeyOf(sha, call.params) := Channel(pool.created, call.params)], pool.created + 1)
  }

  function Returned(sha: Digest, pool: Pool, call: Call): Channel {
    After(sha, pool, call).channels[KeyOf(sha, call.params)]
  }

  // ----- the module dictionary ------------------------------------------------------------------

  class AsyncChannelPool {
    const sha: Digest
    var channels: map<Key, Channel>
    var created: nat

    function Value(): Pool
      reads this
    {
      Pool(channels, created)
    }

    constructor (sha: Digest)
      ensures this.sha == sha && Value() == Pool(map[], 0)
    {
      this.sha := sha;
      channels, created := map[], 0;
    }

    /** _get_pooled_channel */
    method GetPooledChannel(call: Call) returns (channel: Channel)
      modifies this
      ensures Value() == After(sha, old(Value()), call)
      ensures channel == Returned(sha, old(Value()), call)
    {
      var key := KeyOf(sha, call.params);
      if key in channels {
        var existing := channels[key];
        var state := call.state(existing);
        if state.Some? && state.value != SHUTDOWN {
          return existing;
        }
        channels := channels - {key};
      }
      channel := Channel(created, call.params);
      created := created + 1;
      channels := channels[key := channel];
    }
  }

  // ----- any sequence of calls ---------------------------------------------------------------------

  /** The pool after the first n calls. */
  function PoolAt(sha: Digest, calls: seq<Call>, n: nat): Pool
    requires n <= |calls|
  {
    if n == 0 then Pool(map[], 0) else After(sha, PoolAt(sha, calls, n - 1), calls[n - 1])
  }

  function ResultAt(sha: Digest, calls: seq<Call>, i: nat): Channel
    requires i < |calls|
  {
    Returned(sha, PoolAt(sha, calls, i), calls[i])
  }

  predicate EvictsAt(sha: Digest, calls: seq<Call>, i: nat)
    requires i < |calls|
  {
    Evicts(sha, PoolAt(sha, calls, i), calls[i])
  }

  predicate CreatesAt(sha: Digest, calls: seq<Call>, i: nat)
    requires i < |calls|
  {
    !Hits(sha, PoolAt(sha, calls, i), calls[i])
  }

  /** How many of the first n calls are for the key and create a channel. */
  function Creations(sha: Digest, calls: seq<Call>, key: Key, n: nat): nat
    requires n <= |calls|
  {
    if n == 0 then 0
    else Creations(sha, calls, key, n - 1)
         + if KeyOf(sha, calls[n - 1].params) == key && CreatesAt(sha, calls, n - 1) then 1 else 0
  }

  function Evictions(sha: Digest, calls: seq<Call>, key: Key, n: nat): nat
    requires n <= |calls|
  {
    if n == 0 then 0
    else Evictions(sha, calls, key, n - 1)
         + if KeyOf(sha, calls[n - 1].params) == key && EvictsAt(sha, calls, n - 1) then 1 else 0
  }

  predicate Used(sha: Digest, calls: seq<Call>, key: Key, n: nat)
    requires n <= |calls|
  {
    exists i :: 0 <= i < n && KeyOf(sha, calls[i].params) == key
  }

  /** Every pooled channel was built from parameters of its key, and no two are the same channel. */
  ghost predicate PoolInv(sha: Digest, pool: Pool) {
    && (forall k | k in pool.channels :: KeyOf(sha, pool.channels[k].built) == k && pool.channels[k].id < pool.created)
    && forall j, k | j in pool.channels && k in pool.channels && pool.channels[j].id == pool.channels[k].id :: j == k
  }

  lemma {:induction false} PoolInvAt(sha: Digest, calls: seq<Call>, n: nat)
    requires n <= |calls|
    ensures PoolInv(sha, PoolAt(sha, calls, n))
    decreases n
  {
    if n == 0 {
    } else {
      PoolInvAt(sha, calls, n - 1);
    }
  }

  lemma {:induction false} PooledIffUsed(sha: Digest, calls: seq<Call>, key: Key, n: nat)
    requires n <= |calls|
    ensures key in PoolAt(sha, calls, n).channels <==> Used(sha, calls, key, n)
    decreases n
  {
    if n == 0 {
    } else {
      PooledIffUsed(sha, calls, key, n - 1);
      if KeyOf(sha, calls[n - 1].params) == key {
        assert Used(sha, calls, key, n);
      }
    }
  }

  /** The channel a call returns is new exactly when there is none for its key or the one there was shut down
      or could not be asked, and otherwise is that one; it was built for the call's key.  The
      entries of other keys are untouched. */
  lemma CallIsSound(sha: Digest, calls: seq<Call>, i: nat)
    requires i < |calls|
    ensures var before, after := PoolAt(sha, calls, i), PoolAt(sha, calls, i + 1);
            var key, ch := KeyOf(sha, calls[i].params), ResultAt(sha, calls, i);
            && (CreatesAt(sha, calls, i) <==>
                  key !in before.channels
                  || calls[i].state(before.channels[key]) == None
                  || calls[i].state(before.channels[key]) == Some(SHUTDOWN))
            && (if CreatesAt(sha, calls, i)
                then ch == Channel(before.created, calls[i].params) && after.created == before.created + 1
                     && (forall k | k in before.channels :: before.channels[k] != ch)
                else ch == before.channels[key] && after.created == before.created)
            && key in after.channels && after.channels[key] == ch
            && KeyOf(sha, ch.built) == key
            && (forall k | k != key :: (k in after.channels <==> k in before.channels)
                                       && (k in before.channels ==> after.channels[k] == before.channels[k]))
  {
    PoolInvAt(sha, calls, i);
  }

  /** A call evicts exactly when it creates a channel in place of one. */
  lemma EvictsIff(sha: Digest, calls: seq<Call>, i: nat)
    requires i < |calls|
    ensures EvictsAt(sha, calls, i) <==>
            CreatesAt(sha, calls, i) && KeyOf(sha, calls[i].params) in PoolAt(sha, calls, i).channels
  {
  }

  /** Channels created for a key: one for its first use and one for each eviction. */
  lemma {:induction false} CreationsAreEvictionsPlusOne(sha: Digest, calls: seq<Call>, key: Key, n: nat)
    requires n <= |calls|
    ensures Creations(sha, calls, key, n)
            == Evictions(sha, calls, key, n) + if Used(sha, calls, key, n) then 1 else 0
    decreases n
  {
    if n == 0 {
    } else {
      CreationsAreEvictionsPlusOne(sha, calls, key, n - 1);
      PooledIffUsed(sha, calls, key, n - 1);
      if KeyOf(sha, calls[n - 1].params) == key {
        assert Used(sha, calls, key, n);
      } else {
        assert Used(sha, calls, key, n) <==> Used(sha, calls, key, n - 1);
      }
    }
  }

  lemma {:induction false} EntryStays(sha: Digest, calls: seq<Call>, key: Key, i: nat, j: nat)
    requires i <= j <= |calls| && key in PoolAt(sha, calls, i).channels
    requires forall k: nat | i <= k < j && KeyOf(sha, calls[k].params) == key :: !EvictsAt(sha, calls, k)
    ensures key in PoolAt(sha, calls, j).channels
    ensures PoolAt(sha, calls, j).channels[key] == PoolAt(sha, calls, i).channels[key]
    decreases j
  {
    if i == j {
    } else {
      EntryStays(sha, calls, key, i, j - 1);
    }
  }

  /** Between evictions, calls for one key return one channel. */
  lemma SameChannelBetweenEvictions(sha: Digest, calls: seq<Call>, i: nat, j: nat)
    requires i < j < |calls| && KeyOf(sha, calls[i].params) == KeyOf(sha, calls[j].params)
    requires forall k: nat | i < k <= j && KeyOf(sha, calls[k].params) == KeyOf(sha, calls[i].params)
               :: !EvictsAt(sha, calls, k)
    ensures ResultAt(sha, calls, i) == ResultAt(sha, calls, j)
  {
    var key := KeyOf(sha, calls[i].params);
    EntryStays(sha, calls, key, i + 1, j);
    assert !EvictsAt(sha, calls, j);
  }
}
