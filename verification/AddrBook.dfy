/**
 The bookkeeping of the address manager (addrmgr/addrmanager.go, addrmgr/knownaddress.go): an index of known
 addresses, reference-counted new buckets, tried buckets and two counters, with what every operation keeps.
 */
module AddrBook {
  import opened Bytes

  const TRIED_BUCKET_SIZE: nat := 256
  const TRIED_BUCKET_COUNT: nat := 64
  const NEW_BUCKET_SIZE: nat := 64
  const NEW_BUCKET_COUNT: nat := 1024
  const NEW_BUCKETS_PER_ADDRESS: nat := 8

  /** The host and port of an address, as NetAddressKey writes them. */
  type Key = nat

  datatype NetAddr = NetAddr(key: Key, timestamp: int, services: set<nat>)

  datatype KnownAddress = KnownAddress(
    na: NetAddr, src: NetAddr, attempts: nat, lastAttempt: int, lastSuccess: int, tried: bool, refs: nat)

  type Index = map<Key, KnownAddress>

  type NewBuckets = seq<set<Key>>

  type TriedBuckets = seq<seq<Key>>

  datatype Book = Book(index: Index, addrNew: NewBuckets, addrTried: TriedBuckets, nNew: int, nTried: int)

  /** Which addresses are routable, and the bucket hashes under the secret key of the manager. */
  datatype Network = Network(routable: Key -> bool, newHash: (Key, Key) -> nat, triedHash: Key -> nat)
  {
    function NewBucket(addr: Key, src: Key): (b: nat)
      ensures b < NEW_BUCKET_COUNT
    {
      newHash(addr, src) % NEW_BUCKET_COUNT
    }

    function TriedBucket(addr: Key): (b: nat)
      ensures b < TRIED_BUCKET_COUNT
    {
      triedHash(addr) % TRIED_BUCKET_COUNT
    }
  }

  // ----- counting -----

  /** In how many new buckets an address sits. */
  function Count(buckets: NewBuckets, k: Key): (n: nat) {
    if buckets == [] then 0 else Count(buckets[..|buckets| - 1], k) + if k in buckets[|buckets| - 1] then 1 else 0
  }

  lemma {:induction false} CountUpdate(buckets: NewBuckets, b: nat, s: set<Key>, k: Key)
    requires b < |buckets|
    ensures Count(buckets[b := s], k) ==
      Count(buckets, k) - (if k in buckets[b] then 1 else 0) + (if k in s then 1 else 0)
  {
    var last := |buckets| - 1;
    if b == last {
      assert buckets[b := s][..last] == buckets[..last];
    } else {
      assert buckets[b := s][..last] == buckets[..last][b := s];
      CountUpdate(buckets[..last], b, s, k);
    }
  }

  lemma {:induction false} CountIsZero(buckets: NewBuckets, k: Key)
    ensures Count(buckets, k) == 0 <==> forall b :: 0 <= b < |buckets| ==> k !in buckets[b]
  {
    if buckets != [] {
      CountIsZero(buckets[..|buckets| - 1], k);
    }
  }

  // ----- the invariant -----

  function NewKeys(index: Index): (keys: set<Key>) {
    set k | k in index && !index[k].tried
  }

  function TriedKeys(index: Index): (keys: set<Key>) {
    set k | k in index && index[k].tried
  }

  /**
   An entry is indexed under its own key, and `refs` counts its new buckets: none if tried, else one to eight,
   or none for an entry in `loose`.
   */
  ghost predicate EntryOk(index: Index, addrNew: NewBuckets, loose: set<Key>, k: Key)
    requires k in index
  {
    var ka := index[k];
    && ka.na.key == k
    && ka.refs == Count(addrNew, k)
    && (ka.tried ==> ka.refs == 0)
    && (!ka.tried && k !in loose ==> ka.refs >= 1)
    && ka.refs <= NEW_BUCKETS_PER_ADDRESS
  }

  ghost predicate Entries(index: Index, addrNew: NewBuckets, loose: set<Key>) {
    forall k {:trigger EntryOk(index, addrNew, loose, k)} :: k in index ==> EntryOk(index, addrNew, loose, k)
  }

  ghost predicate NewBucketOk(index: Index, addrNew: NewBuckets, b: nat)
    requires b < |addrNew|
  {
    && addrNew[b] <= NewKeys(index)
    && |addrNew[b]| <= NEW_BUCKET_SIZE + 1
  }

  ghost predicate NewOk(index: Index, addrNew: NewBuckets) {
    && |addrNew| == NEW_BUCKET_COUNT
    && forall b {:trigger NewBucketOk(index, addrNew, b)} :: 0 <= b < |addrNew| ==> NewBucketOk(index, addrNew, b)
  }

  /** A tried bucket holds exactly the tried addresses that hash to it, once each. */
  ghost predicate TriedBucketOk(net: Network, index: Index, addrTried: TriedBuckets, b: nat)
    requires b < |addrTried|
  {
    && NoRepeats(addrTried[b]) && |addrTried[b]| <= TRIED_BUCKET_SIZE
    && forall k :: k in addrTried[b] <==> k in TriedKeys(index) && net.TriedBucket(k) == b
  }

  ghost predicate TriedOk(net: Network, index: Index, addrTried: TriedBuckets) {
    && |addrTried| == TRIED_BUCKET_COUNT
    && forall b {:trigger TriedBucketOk(net, index, addrTried, b)} :: 0 <= b < |addrTried| ==>
      TriedBucketOk(net, index, addrTried, b)
  }

  ghost predicate Sound(net: Network, s: Book, loose: set<Key>) {
    && Entries(s.index, s.addrNew, loose)
    && NewOk(s.index, s.addrNew)
    && TriedOk(net, s.index, s.addrTried)
    && s.nNew == |NewKeys(s.index)| && s.nTried == |TriedKeys(s.index)|
  }

  /** The index splits into new and tried, and the counters add up to its size. */
  lemma Totals(net: Network, s: Book)
    requires Sound(net, s, {})
    ensures s.index.Keys == NewKeys(s.index) + TriedKeys(s.index) && NewKeys(s.index) !! TriedKeys(s.index)
    ensures s.nNew + s.nTried == |s.index|
    ensures forall k :: k in s.index ==> (s.index[k].tried <==> Count(s.addrNew, k) == 0)
    ensures forall k :: k in s.index ==> Count(s.addrNew, k) <= NEW_BUCKETS_PER_ADDRESS
  {
    assert s.index.Keys == NewKeys(s.index) + TriedKeys(s.index);
    forall k | k in s.index ensures EntryOk(s.index, s.addrNew, {}, k) {
    }
  }

  // ----- elementary updates -----

  function Empty(): (s: Book) {
    Book(map[], seq(NEW_BUCKET_COUNT, _ => {}), seq(TRIED_BUCKET_COUNT, _ => []), 0, 0)
  }

  /** A new index entry that sits in no bucket yet. */
  function Indexed(s: Book, ka: KnownAddress): (s': Book) {
    s.(index := s.index[ka.na.key := ka], nNew := s.nNew + 1)
  }

  /** Into a new bucket, with one more reference. */
  function Linked(s: Book, b: nat, k: Key): (s': Book)
    requires b < |s.addrNew| && k in s.index
  {
    s.(index := s.index[k := s.index[k].(refs := s.index[k].refs + 1)],
       addrNew := s.addrNew[b := s.addrNew[b] + {k}])
  }

  /** Out of a new bucket, with one reference less; the last one takes the entry with it. */
  function Unlinked(s: Book, b: nat, k: Key): (s': Book)
    requires b < |s.addrNew| && k in s.index && s.index[k].refs > 0
  {
    var ka := s.index[k];
    var addrNew := s.addrNew[b := s.addrNew[b] - {k}];
    if ka.refs == 1 then
      s.(index := s.index - {k}, addrNew := addrNew, nNew := s.nNew - 1)
    else
      s.(index := s.index[k := ka.(refs := ka.refs - 1)], addrNew := addrNew)
  }

  // ----- the elementary updates keep the book sound -----

  lemma EmptyIsSound(net: Network)
    ensures Sound(net, Empty(), {})
  {
    var s := Empty();
    assert NewKeys(s.index) == {} && TriedKeys(s.index) == {};
  }

  /** A key outside the new keys is in no new bucket. */
  lemma NotInBuckets(index: Index, addrNew: NewBuckets, k: Key)
    requires NewOk(index, addrNew) && k !in NewKeys(index)
    ensures Count(addrNew, k) == 0
  {
    forall b | 0 <= b < |addrNew| ensures k !in addrNew[b] {
      assert NewBucketOk(index, addrNew, b);
    }
    CountIsZero(addrNew, k);
  }

  /** The parts that depend only on which keys are new and which are tried. */
  lemma SameKeysSound(net: Network, s: Book, index: Index)
    requires NewOk(s.index, s.addrNew) && TriedOk(net, s.index, s.addrTried)
    requires NewKeys(index) == NewKeys(s.index) && TriedKeys(index) == TriedKeys(s.index)
    ensures NewOk(index, s.addrNew) && TriedOk(net, index, s.addrTried)
  {
    forall b | 0 <= b < |s.addrNew| ensures NewBucketOk(index, s.addrNew, b) {
      assert NewBucketOk(s.index, s.addrNew, b);
    }
    forall b | 0 <= b < |s.addrTried| ensures TriedBucketOk(net, index, s.addrTried, b) {
      assert TriedBucketOk(net, s.index, s.addrTried, b);
    }
  }

  /** What may change in an entry without touching the buckets. */
  lemma TouchedIsSound(net: Network, s: Book, loose: set<Key>, k: Key, ka: KnownAddress)
    requires Sound(net, s, loose) && k in s.index
    requires ka.na.key == k && ka.tried == s.index[k].tried && ka.refs == s.index[k].refs
    ensures Sound(net, s.(index := s.index[k := ka]), loose)
  {
    var index := s.index[k := ka];
    assert NewKeys(index) == NewKeys(s.index) && TriedKeys(index) == TriedKeys(s.index);
    SameKeysSound(net, s, index);
    forall j | j in index ensures EntryOk(index, s.addrNew, loose, j) {
      assert EntryOk(s.index, s.addrNew, loose, j);
    }
  }

  lemma IndexedIsSound(net: Network, s: Book, loose: set<Key>, ka: KnownAddress)
    requires Sound(net, s, loose) && ka.na.key !in s.index && !ka.tried && ka.refs == 0
    ensures Sound(net, Indexed(s, ka), loose + {ka.na.key})
  {
    var k := ka.na.key;
    var index := s.index[k := ka];
    assert NewKeys(index) == NewKeys(s.index) + {k} && TriedKeys(index) == TriedKeys(s.index);
    NotInBuckets(s.index, s.addrNew, k);
    forall j | j in index ensures EntryOk(index, s.addrNew, loose + {k}, j) {
      assert j != k ==> EntryOk(s.index, s.addrNew, loose, j);
    }
    forall b | 0 <= b < |s.addrNew| ensures NewBucketOk(index, s.addrNew, b) {
      assert NewBucketOk(s.index, s.addrNew, b);
    }
    forall b | 0 <= b < |s.addrTried| ensures TriedBucketOk(net, index, s.addrTried, b) {
      assert TriedBucketOk(net, s.index, s.addrTried, b);
    }
  }

  lemma NewBucketSet(index: Index, addrNew: NewBuckets, b: nat, keys: set<Key>)
    requires NewOk(index, addrNew) && b < |addrNew| && keys <= NewKeys(index) && |keys| <= NEW_BUCKET_SIZE + 1
    ensures NewOk(index, addrNew[b := keys])
  {
    var addrNew' := addrNew[b := keys];
    forall c | 0 <= c < |addrNew| ensures NewBucketOk(index, addrNew', c) {
      assert NewBucketOk(index, addrNew, c);
    }
  }

  lemma LinkedIsSound(net: Network, s: Book, loose: set<Key>, b: nat, k: Key)
    requires Sound(net, s, loose) && b < |s.addrNew| && k in s.index && !s.index[k].tried
    requires k !in s.addrNew[b] && s.index[k].refs < NEW_BUCKETS_PER_ADDRESS && |s.addrNew[b]| <= NEW_BUCKET_SIZE
    ensures Sound(net, Linked(s, b, k), loose - {k})
  {
    var s' := Linked(s, b, k);
    assert NewKeys(s'.index) == NewKeys(s.index) && TriedKeys(s'.index) == TriedKeys(s.index);
    SameKeysSound(net, s, s'.index);
    assert NewBucketOk(s.index, s.addrNew, b);
    NewBucketSet(s'.index, s.addrNew, b, s.addrNew[b] + {k});
    forall j | j in s'.index ensures EntryOk(s'.index, s'.addrNew, loose - {k}, j) {
      assert EntryOk(s.index, s.addrNew, loose, j);
      CountUpdate(s.addrNew, b, s.addrNew[b] + {k}, j);
    }
  }

  lemma UnlinkedIsSound(net: Network, s: Book, loose: set<Key>, b: nat, k: Key)
    requires Sound(net, s, loose) && b < |s.addrNew| && k in s.addrNew[b]
    ensures k in s.index && s.index[k].refs > 0
    ensures Sound(net, Unlinked(s, b, k), loose)
  {
    assert NewBucketOk(s.index, s.addrNew, b);
    assert EntryOk(s.index, s.addrNew, loose, k);
    CountIsZero(s.addrNew, k);
    if s.index[k].refs == 1 {
      LastUnlinkedIsSound(net, s, loose, b, k);
    } else {
      var s' := Unlinked(s, b, k);
      assert NewKeys(s'.index) == NewKeys(s.index) && TriedKeys(s'.index) == TriedKeys(s.index);
      SameKeysSound(net, s, s'.index);
      NewBucketSet(s'.index, s.addrNew, b, s.addrNew[b] - {k});
      forall j | j in s'.index ensures EntryOk(s'.index, s'.addrNew, loose, j) {
        assert EntryOk(s.index, s.addrNew, loose, j);
        CountUpdate(s.addrNew, b, s.addrNew[b] - {k}, j);
      }
    }
  }

  lemma LastUnlinkedIsSound(net: Network, s: Book, loose: set<Key>, b: nat, k: Key)
    requires Sound(net, s, loose) && b < |s.addrNew| && k in s.addrNew[b] && k in s.index && s.index[k].refs == 1
    ensures Sound(net, Unlinked(s, b, k), loose)
  {
    var s' := Unlinked(s, b, k);
    assert NewBucketOk(s.index, s.addrNew, b);
    assert EntryOk(s.index, s.addrNew, loose, k);
    assert NewKeys(s'.index) == NewKeys(s.index) - {k} && TriedKeys(s'.index) == TriedKeys(s.index);
    CountUpdate(s.addrNew, b, s.addrNew[b] - {k}, k);
    CountIsZero(s'.addrNew, k);
    forall j | j in s'.index ensures EntryOk(s'.index, s'.addrNew, loose, j) {
      assert EntryOk(s.index, s.addrNew, loose, j);
      CountUpdate(s.addrNew, b, s.addrNew[b] - {k}, j);
    }
    forall c | 0 <= c < |s'.addrNew| ensures NewBucketOk(s'.index, s'.addrNew, c) {
      assert NewBucketOk(s.index, s.addrNew, c);
    }
    forall c | 0 <= c < |s.addrTried| ensures TriedBucketOk(net, s'.index, s.addrTried, c) {
      assert TriedBucketOk(net, s.index, s.addrTried, c);
    }
  }

  /** Excusing an entry loses nothing, and is not needed for one that has a bucket. */
  lemma Excused(net: Network, s: Book, loose: set<Key>, loose': set<Key>)
    requires Sound(net, s, loose)
    requires forall k :: k in loose && k !in loose' && k in s.index ==> s.index[k].tried || s.index[k].refs >= 1
    ensures Sound(net, s, loose')
  {
    forall k | k in s.index ensures EntryOk(s.index, s.addrNew, loose', k) {
      assert EntryOk(s.index, s.addrNew, loose, k);
    }
  }

  // ----- moving an address to tried -----

  /** The first `n` new buckets without an address. */
  function Cleared(buckets: NewBuckets, k: Key, n: nat): (cleared: NewBuckets)
    ensures |cleared| == |buckets|
    ensures forall b {:trigger cleared[b]} :: 0 <= b < |buckets| ==>
      cleared[b] == if b < n then buckets[b] - {k} else buckets[b]
  {
    seq(|buckets|, b requires 0 <= b < |buckets| => if b < n then buckets[b] - {k} else buckets[b])
  }

  lemma {:induction false} ClearedCount(buckets: NewBuckets, k: Key, j: Key)
    ensures Count(Cleared(buckets, k, |buckets|), j) == if j == k then 0 else Count(buckets, j)
  {
    if buckets != [] {
      var last := |buckets| - 1;
      ClearedCount(buckets[..last], k, j);
      assert Cleared(buckets, k, |buckets|)[..last] == Cleared(buckets[..last], k, last);
    }
  }

  /** An address without new buckets joins its tried bucket. */
  function Promoted(net: Network, s: Book, k: Key): (s': Book)
    requires k in s.index && |s.addrTried| == TRIED_BUCKET_COUNT
  {
    var tb := net.TriedBucket(k);
    Book(s.index[k := s.index[k].(tried := true, refs := 0)],
         Cleared(s.addrNew, k, |s.addrNew|),
         s.addrTried[tb := s.addrTried[tb] + [k]],
         s.nNew - 1, s.nTried + 1)
  }

  /** It takes the place of another there, which goes back to a new bucket. */
  function Swapped(net: Network, s: Book, k: Key, i: nat, nb: nat): (s': Book)
    requires k in s.index && |s.addrTried| == TRIED_BUCKET_COUNT && nb < |s.addrNew|
    requires i < |s.addrTried[net.TriedBucket(k)]| && s.addrTried[net.TriedBucket(k)][i] in s.index
  {
    var tb := net.TriedBucket(k);
    var r := s.addrTried[tb][i];
    var list: seq<Key> := s.addrTried[tb][i := k];
    var cleared := Cleared(s.addrNew, k, |s.addrNew|);
    Book(s.index[k := s.index[k].(tried := true, refs := 0)]
                [r := s.index[r].(tried := false, refs := s.index[r].refs + 1)],
         cleared[nb := cleared[nb] + {r}],
         s.addrTried[tb := list],
         s.nNew, s.nTried)
  }

  lemma PromotedIsSound(net: Network, s: Book, k: Key)
    requires Sound(net, s, {}) && k in s.index && !s.index[k].tried
    requires |s.addrTried[net.TriedBucket(k)]| < TRIED_BUCKET_SIZE
    ensures Sound(net, Promoted(net, s, k), {})
  {
    var s' := Promoted(net, s, k);
    assert NewKeys(s'.index) == NewKeys(s.index) - {k} && TriedKeys(s'.index) == TriedKeys(s.index) + {k};
    forall j | j in s'.index ensures EntryOk(s'.index, s'.addrNew, {}, j) {
      assert EntryOk(s.index, s.addrNew, {}, j);
      ClearedCount(s.addrNew, k, j);
    }
    forall b | 0 <= b < |s'.addrNew| ensures NewBucketOk(s'.index, s'.addrNew, b) {
      assert NewBucketOk(s.index, s.addrNew, b);
    }
    PromotedTried(net, s, k);
  }

  lemma PromotedTried(net: Network, s: Book, k: Key)
    requires TriedOk(net, s.index, s.addrTried) && k in s.index && !s.index[k].tried
    requires |s.addrTried[net.TriedBucket(k)]| < TRIED_BUCKET_SIZE
    ensures TriedOk(net, Promoted(net, s, k).index, Promoted(net, s, k).addrTried)
  {
    var s' := Promoted(net, s, k);
    assert TriedKeys(s'.index) == TriedKeys(s.index) + {k};
    forall b | 0 <= b < |s'.addrTried| ensures TriedBucketOk(net, s'.index, s'.addrTried, b) {
      assert TriedBucketOk(net, s.index, s.addrTried, b);
    }
  }

  lemma EvictedIsTried(net: Network, s: Book, b: nat, i: nat)
    requires Sound(net, s, {}) && b < |s.addrTried| && i < |s.addrTried[b]|
    ensures s.addrTried[b][i] in s.index && s.index[s.addrTried[b][i]].tried
    ensures net.TriedBucket(s.addrTried[b][i]) == b
  {
    assert TriedBucketOk(net, s.index, s.addrTried, b);
    assert s.addrTried[b][i] in s.addrTried[b];
  }

  /** Swapping a new address with a tried one changes the size of neither set. */
  lemma SwappedSizes(index: Index, k: Key, r: Key, index': Index)
    requires k in index && !index[k].tried && r in index && index[r].tried
    requires index'.Keys == index.Keys && k in index' && index'[k].tried && r in index' && !index'[r].tried
    requires forall j :: j in index && j != k && j != r ==> index'[j] == index[j]
    ensures |NewKeys(index')| == |NewKeys(index)| && |TriedKeys(index')| == |TriedKeys(index)|
  {
    assert NewKeys(index') == NewKeys(index) - {k} + {r};
    assert TriedKeys(index') == TriedKeys(index) - {r} + {k};
    SwapSize(NewKeys(index), k, r);
    SwapSize(TriedKeys(index), r, k);
  }

  lemma SwapSize(keys: set<Key>, out: Key, into: Key)
    requires out in keys && into !in keys
    ensures |keys - {out} + {into}| == |keys|
  {
  }

  lemma SwappedIsSound(net: Network, s: Book, k: Key, i: nat, nb: nat)
    requires Sound(net, s, {}) && k in s.index && !s.index[k].tried
    requires i < |s.addrTried[net.TriedBucket(k)]|
    requires nb < |s.addrNew| && |s.addrNew[nb] - {k}| <= NEW_BUCKET_SIZE
    ensures s.addrTried[net.TriedBucket(k)][i] in s.index
    ensures Sound(net, Swapped(net, s, k, i, nb), {})
  {
    var tb := net.TriedBucket(k);
    EvictedIsTried(net, s, tb, i);
    SwappedSizes(s.index, k, s.addrTried[tb][i], Swapped(net, s, k, i, nb).index);
    SwappedEntries(net, s, k, i, nb);
    SwappedBuckets(net, s, k, i, nb);
    SwappedTried(net, s, k, i, nb);
  }

  lemma SwappedEntries(net: Network, s: Book, k: Key, i: nat, nb: nat)
    requires Sound(net, s, {}) && k in s.index && !s.index[k].tried
    requires i < |s.addrTried[net.TriedBucket(k)]| && nb < |s.addrNew|
    requires s.addrTried[net.TriedBucket(k)][i] in s.index && s.index[s.addrTried[net.TriedBucket(k)][i]].tried
    ensures Entries(Swapped(net, s, k, i, nb).index, Swapped(net, s, k, i, nb).addrNew, {})
  {
    var s' := Swapped(net, s, k, i, nb);
    var r := s.addrTried[net.TriedBucket(k)][i];
    var cleared := Cleared(s.addrNew, k, |s.addrNew|);
    NotInBuckets(s.index, s.addrNew, r);
    CountIsZero(s.addrNew, r);
    forall j | j in s'.index ensures EntryOk(s'.index, s'.addrNew, {}, j) {
      assert EntryOk(s.index, s.addrNew, {}, j);
      ClearedCount(s.addrNew, k, j);
      CountUpdate(cleared, nb, cleared[nb] + {r}, j);
    }
  }

  lemma SwappedBuckets(net: Network, s: Book, k: Key, i: nat, nb: nat)
    requires Sound(net, s, {}) && k in s.index && !s.index[k].tried
    requires i < |s.addrTried[net.TriedBucket(k)]| && nb < |s.addrNew| && |s.addrNew[nb] - {k}| <= NEW_BUCKET_SIZE
    requires s.addrTried[net.TriedBucket(k)][i] in s.index && s.index[s.addrTried[net.TriedBucket(k)][i]].tried
    ensures NewOk(Swapped(net, s, k, i, nb).index, Swapped(net, s, k, i, nb).addrNew)
  {
    var s' := Swapped(net, s, k, i, nb);
    forall b | 0 <= b < |s'.addrNew| ensures NewBucketOk(s'.index, s'.addrNew, b) {
      assert NewBucketOk(s.index, s.addrNew, b);
    }
  }

  lemma ReplacedKeys(list: seq<Key>, i: nat, k: Key, list': seq<Key>)
    requires NoRepeats(list) && i < |list| && k !in list && list' == list[i := k]
    ensures NoRepeats(list')
    ensures forall j :: j in list' <==> j == k || (j in list && j != list[i])
  {
    forall j | j == k || (j in list && j != list[i]) ensures j in list' {
      if j == k {
        assert list'[i] == k;
      } else {
        var n :| 0 <= n < |list| && list[n] == j;
        assert list'[n] == j;
      }
    }
  }

  lemma SwappedTried(net: Network, s: Book, k: Key, i: nat, nb: nat)
    requires Sound(net, s, {}) && k in s.index && !s.index[k].tried
    requires i < |s.addrTried[net.TriedBucket(k)]| && nb < |s.addrNew|
    requires s.addrTried[net.TriedBucket(k)][i] in s.index && s.index[s.addrTried[net.TriedBucket(k)][i]].tried
    ensures TriedOk(net, Swapped(net, s, k, i, nb).index, Swapped(net, s, k, i, nb).addrTried)
  {
    var s', tb := Swapped(net, s, k, i, nb), net.TriedBucket(k);
    var r := s.addrTried[tb][i];
    assert TriedKeys(s'.index) == TriedKeys(s.index) + {k} - {r};
    EvictedIsTried(net, s, tb, i);
    assert TriedBucketOk(net, s.index, s.addrTried, tb);
    ReplacedKeys(s.addrTried[tb], i, k, s'.addrTried[tb]);
    forall b | 0 <= b < |s'.addrTried| ensures TriedBucketOk(net, s'.index, s'.addrTried, b) {
      assert TriedBucketOk(net, s.index, s.addrTried, b);
    }
  }
}
