/**
 The address manager as the node runs it (addrmgr/addrmanager.go): every operation from a fresh manager keeps
 the book sound, whatever the clock, the random numbers and the map iteration order are.
 */
module AddrManager {
  import opened Bytes
  import opened AddrBook

  /** The addresses a given verdict calls bad. */
  function BadKeys(index: Index, keys: set<Key>, bad: KnownAddress -> bool): (r: set<Key>) {
    set k | k in keys && k in index && bad(index[k])
  }

  /** What expireNew leaves of a bucket: not the bad ones, and not one of the oldest of the others. */
  ghost predicate Expired(index: Index, keys: set<Key>, bad: KnownAddress -> bool, left: set<Key>) {
    var good := keys - BadKeys(index, keys, bad);
    if good == {} then
      left == {}
    else
      exists o :: o in good && left == good - {o} && o in index &&
        forall k :: k in good && k in index ==> index[o].na.timestamp <= index[k].na.timestamp
  }

  /** Nothing but bucket `b` and the entries it held has changed. */
  ghost predicate Confined(s: Book, s': Book, b: nat, keys: set<Key>) {
    && |s'.addrNew| == |s.addrNew| && s'.addrTried == s.addrTried && s'.nTried == s.nTried
    && (forall c :: 0 <= c < |s.addrNew| && c != b ==> s'.addrNew[c] == s.addrNew[c])
    && forall k {:trigger EntryKept(s, s', k)} :: k !in keys ==> EntryKept(s, s', k)
  }

  ghost predicate EntryKept(s: Book, s': Book, k: Key) {
    (k in s.index <==> k in s'.index) && (k in s.index ==> s'.index[k] == s.index[k])
  }

  lemma ConfinedUnlink(s0: Book, s: Book, b: nat, keys: set<Key>, k: Key)
    requires Confined(s0, s, b, keys) && b < |s.addrNew| && k in keys && k in s.index && s.index[k].refs > 0
    ensures Confined(s0, Unlinked(s, b, k), b, keys)
  {
    var s' := Unlinked(s, b, k);
    forall j | j !in keys ensures EntryKept(s0, s', j) {
      assert EntryKept(s0, s, j);
    }
  }

  /** Part way through a bucket: what is left to look at, and what stays of the rest. */
  ghost predicate Expiring(s0: Book, s: Book, b: nat, keys: set<Key>, left: set<Key>, bad: KnownAddress -> bool) {
    && b < |s.addrNew| && keys <= s0.index.Keys && left <= keys
    && Confined(s0, s, b, keys)
    && (forall k :: k in s.addrNew[b] <==> k in keys && (k in left || !bad(s0.index[k])))
    && forall k :: k in s.addrNew[b] ==> k in s.index && s.index[k] == s0.index[k]
  }

  lemma ExpiringStep(s0: Book, s: Book, b: nat, keys: set<Key>, left: set<Key>, bad: KnownAddress -> bool, k: Key)
    requires Expiring(s0, s, b, keys, left, bad) && k in left && k in s.index && s.index[k].refs > 0 && bad(s.index[k])
    ensures Expiring(s0, Unlinked(s, b, k), b, keys, left - {k}, bad)
  {
    ConfinedUnlink(s0, s, b, keys, k);
  }

  /** Among the keys seen so far, `oldest` is a good one of least timestamp, if there is any. */
  ghost predicate OldestOf(index: Index, seen: set<Key>, bad: KnownAddress -> bool, oldest: Option<Key>) {
    if oldest.None? then
      forall k :: k in seen && k in index ==> bad(index[k])
    else
      && oldest.value in seen && oldest.value in index && !bad(index[oldest.value])
      && forall k :: k in seen && k in index && !bad(index[k]) ==>
        index[oldest.value].na.timestamp <= index[k].na.timestamp
  }

  lemma ExpiredIsSmaller(index: Index, keys: set<Key>, bad: KnownAddress -> bool, left: set<Key>)
    requires Expired(index, keys, bad, left) && keys != {}
    ensures left < keys && |left| < |keys|
  {
    var good := keys - BadKeys(index, keys, bad);
    var o := if good == {} then (var k :| k in keys; k) else (var k :| k in good && left == good - {k}; k);
    assert left <= keys - {o};
    SubsetSize(left, keys - {o});
  }

  /** The first of the oldest addresses of a tried bucket, if there is any. */
  method PickTried(index: Index, list: seq<Key>) returns (oldest: Option<nat>)
    requires forall k :: k in list ==> k in index
    ensures oldest.None? <==> list == []
    ensures oldest.Some? ==> IsOldest(index, list, oldest.value)
  {
    oldest := None;
    for e := 0 to |list|
      invariant oldest.None? <==> e == 0
      invariant oldest.Some? ==> IsOldest(index, list[..e], oldest.value)
    {
      assert list[..e + 1] == list[..e] + [list[e]];
      if oldest.None? || index[list[oldest.value]].na.timestamp > index[list[e]].na.timestamp {
        oldest := Some(e);
      }
    }
    assert list[..|list|] == list;
  }

  /** The last seen time and the services of a known address, after it was announced again. */
  function Refreshed(known: NetAddr, na: NetAddr): (r: NetAddr) {
    if na.timestamp > known.timestamp || !(na.services <= known.services) then
      known.(timestamp := na.timestamp, services := known.services + na.services)
    else
      known
  }

  /** An address was announced again: no service is forgotten, and only one with a new service moves its time back. */
  predicate Announced(known: NetAddr, na: NetAddr, r: NetAddr) {
    && r.key == known.key && r.services == known.services + na.services
    && (r.timestamp == known.timestamp || r.timestamp == na.timestamp)
    && (na.timestamp > known.timestamp ==> r.timestamp == na.timestamp)
    && (r.timestamp < known.timestamp <==> na.timestamp < known.timestamp && !(na.services <= known.services))
  }

  lemma RefreshedIsAnnounced(known: NetAddr, na: NetAddr)
    ensures Announced(known, na, Refreshed(known, na))
  {
    assert na.services <= known.services ==> known.services + na.services == known.services;
  }

  /** A known address joins another new bucket: it may be in more of them, and the draw allows it. */
  predicate Joins(ka: KnownAddress, random: nat) {
    !ka.tried && 0 < ka.refs < NEW_BUCKETS_PER_ADDRESS && random % (2 * ka.refs) == 0
  }

  /** An address went into a new bucket, which first lost what expires there if it was over full. */
  ghost predicate Joined(s: Book, b: nat, k: Key, bad: KnownAddress -> bool, s': Book)
    requires b < |s.addrNew| && k in s.index
  {
    if k in s.addrNew[b] then
      s' == s
    else if |s.addrNew[b]| <= NEW_BUCKET_SIZE then
      s' == Linked(s, b, k)
    else
      && Confined(s, s', b, s.addrNew[b] + {k}) && b < |s'.addrNew| && k in s'.addrNew[b]
      && Expired(s.index, s.addrNew[b], bad, s'.addrNew[b] - {k})
      && k in s'.index && s'.index[k] == s.index[k].(refs := s.index[k].refs + 1)
  }

  /** A known address takes the announcement, and joins the bucket for its source if it may. */
  ghost predicate UpdatedWith(net: Network, s: Book, na: NetAddr, src: NetAddr, random: nat, bad: KnownAddress -> bool,
      r: NetAddr, s': Book)
    requires na.key in s.index && |s.addrNew| == NEW_BUCKET_COUNT
  {
    var ka := s.index[na.key];
    var t := s.(index := s.index[na.key := ka.(na := r)]);
    if Joins(ka, random) then Joined(t, net.NewBucket(na.key, src.key), na.key, bad, s') else s' == t
  }

  lemma JoinedExpired(s: Book, t: Book, b: nat, k: Key, bad: KnownAddress -> bool)
    requires b < |s.addrNew| && k in s.index && k !in s.addrNew[b] && |s.addrNew[b]| > NEW_BUCKET_SIZE
    requires Confined(s, t, b, s.addrNew[b]) && Expired(s.index, s.addrNew[b], bad, t.addrNew[b])
    ensures k in t.index && Joined(s, b, k, bad, Linked(t, b, k))
  {
    assert EntryKept(s, t, k);
    var s' := Linked(t, b, k);
    assert t.addrNew[b] <= s.addrNew[b];
    assert s'.addrNew[b] - {k} == t.addrNew[b];
    forall j | j !in s.addrNew[b] + {k} ensures EntryKept(s, s', j) {
      assert EntryKept(s, t, j);
    }
  }

  lemma CountStep(buckets: NewBuckets, k: Key, i: nat)
    requires i < |buckets|
    ensures Count(buckets[..i + 1], k) == Count(buckets[..i], k) + if k in buckets[i] then 1 else 0
    ensures Count(buckets[..i + 1], k) <= Count(buckets, k)
  {
    assert buckets[..i + 1][..i] == buckets[..i];
    CountPrefix(buckets, k, i + 1);
  }

  lemma {:induction false} CountPrefix(buckets: NewBuckets, k: Key, i: nat)
    requires i <= |buckets|
    ensures Count(buckets[..i], k) <= Count(buckets, k)
  {
    if i == |buckets| {
      assert buckets[..i] == buckets;
    } else {
      assert buckets[..|buckets| - 1][..i] == buckets[..i];
      CountPrefix(buckets[..|buckets| - 1], k, i);
    }
  }

  /** The address is out of the first `i` new buckets, with as many references less. */
  ghost predicate Clearing(s0: Book, s: Book, k: Key, i: nat) {
    && k in s0.index && i <= |s0.addrNew| && Count(s0.addrNew[..i], k) <= s0.index[k].refs == Count(s0.addrNew, k)
    && s == s0.(addrNew := Cleared(s0.addrNew, k, i),
                index := s0.index[k := s0.index[k].(refs := s0.index[k].refs - Count(s0.addrNew[..i], k))])
  }

  function ClearedAt(s: Book, k: Key, i: nat): (s': Book)
    requires i < |s.addrNew| && k in s.index && s.index[k].refs > 0
  {
    s.(addrNew := s.addrNew[i := s.addrNew[i] - {k}], index := s.index[k := s.index[k].(refs := s.index[k].refs - 1)])
  }

  lemma ClearingStep(s0: Book, s: Book, k: Key, i: nat)
    requires Clearing(s0, s, k, i) && i < |s0.addrNew|
    ensures k in s.addrNew[i] <==> k in s0.addrNew[i]
    ensures k in s.addrNew[i] ==> s.index[k].refs > 0 && Clearing(s0, ClearedAt(s, k, i), k, i + 1)
    ensures k !in s.addrNew[i] ==> Clearing(s0, s, k, i + 1)
  {
    CountStep(s0.addrNew, k, i);
    if k in s.addrNew[i] {
      assert ClearedAt(s, k, i).addrNew == Cleared(s0.addrNew, k, i + 1);
    } else {
      assert s0.addrNew[i] - {k} == s0.addrNew[i];
      assert s.addrNew == Cleared(s0.addrNew, k, i + 1);
    }
  }

  /** A successful connection. */
  function Succeeded(ka: KnownAddress, now: int): (r: KnownAddress) {
    ka.(lastSuccess := now, lastAttempt := now, attempts := 0)
  }

  /** Where the address evicted from a tried bucket goes: its own new bucket, or the one just freed if that is full. */
  function EvictedTo(net: Network, s: Book, k: Key, r: Key, freed: nat): (nb: nat)
    requires |s.addrNew| == NEW_BUCKET_COUNT && r in s.index && freed < NEW_BUCKET_COUNT
    ensures nb < NEW_BUCKET_COUNT
  {
    var nb := net.NewBucket(s.index[r].na.key, s.index[r].src.key);
    if |s.addrNew[nb] - {k}| >= NEW_BUCKET_SIZE then freed else nb
  }

  /** `list[i]` is the first of the oldest addresses of the list. */
  ghost predicate IsOldest(index: Index, list: seq<Key>, i: nat) {
    && i < |list| && (forall k :: k in list ==> k in index)
    && (forall j :: 0 <= j < |list| ==> index[list[i]].na.timestamp <= index[list[j]].na.timestamp)
    && forall j :: 0 <= j < i ==> index[list[i]].na.timestamp < index[list[j]].na.timestamp
  }

  /** The first new bucket that holds an address. */
  ghost predicate IsFirst(buckets: NewBuckets, k: Key, b: int) {
    && 0 <= b < |buckets| && k in buckets[b]
    && forall c :: 0 <= c < b ==> k !in buckets[c]
  }

  /** An address went to its tried bucket, at its end or in place of the oldest there. */
  ghost predicate Moved(net: Network, s: Book, k: Key, s': Book)
    requires k in s.index && |s.addrTried| == TRIED_BUCKET_COUNT && |s.addrNew| == NEW_BUCKET_COUNT
  {
    var list := s.addrTried[net.TriedBucket(k)];
    if |list| < TRIED_BUCKET_SIZE then
      s' == Promoted(net, s, k)
    else
      exists i: nat, first: nat :: IsOldest(s.index, list, i) && IsFirst(s.addrNew, k, first) &&
        s' == Swapped(net, s, k, i, EvictedTo(net, s, k, list[i], first))
  }

  lemma MovedKeepsKeys(net: Network, s: Book, k: Key, s': Book)
    requires Sound(net, s, {}) && k in s.index && Moved(net, s, k, s')
    ensures s'.index.Keys == s.index.Keys
    ensures !s.index[k].tried ==> s'.index[k] == s.index[k].(tried := true, refs := 0)
  {
    ListIsTried(net, s, net.TriedBucket(k));
  }

  lemma ListIsTried(net: Network, s: Book, b: nat)
    requires Sound(net, s, {}) && b < |s.addrTried|
    ensures forall k :: k in s.addrTried[b] ==> k in s.index && s.index[k].tried
  {
    assert TriedBucketOk(net, s.index, s.addrTried, b);
  }

  /** There is room for the evicted address. */
  lemma EvictedFits(net: Network, s: Book, k: Key, r: Key, first: nat)
    requires Sound(net, s, {}) && r in s.index && IsFirst(s.addrNew, k, first)
    ensures |s.addrNew[EvictedTo(net, s, k, r, first)] - {k}| <= NEW_BUCKET_SIZE
  {
    assert NewBucketOk(s.index, s.addrNew, first);
  }

  /** The last updates of Good, once the address has left the new buckets. */
  function Evicted(s: Book, tb: nat, k: Key, i: nat, r: Key, nb: nat): (s': Book)
    requires tb < |s.addrTried| && i < |s.addrTried[tb]| && k in s.index && r in s.index && nb < |s.addrNew|
  {
    var list: seq<Key> := s.addrTried[tb][i := k];
    var tried := s.index[k].(tried := true);
    var evicted := s.index[r].(tried := false, refs := s.index[r].refs + 1);
    s.(index := s.index[k := tried][r := evicted], addrTried := s.addrTried[tb := list],
       addrNew := s.addrNew[nb := s.addrNew[nb] + {r}], nNew := s.nNew + 1)
  }

  lemma EvictedIsSwapped(net: Network, s: Book, t: Book, k: Key, i: nat, r: Key, nb: nat)
    requires k in s.index && r in s.index && r != k && nb < |s.addrNew| && |s.addrTried| == TRIED_BUCKET_COUNT
    requires i < |s.addrTried[net.TriedBucket(k)]| && r == s.addrTried[net.TriedBucket(k)][i]
    requires t == s.(addrNew := Cleared(s.addrNew, k, |s.addrNew|),
                     index := s.index[k := s.index[k].(refs := 0)], nNew := s.nNew - 1)
    ensures Evicted(t, net.TriedBucket(k), k, i, r, nb) == Swapped(net, s, k, i, nb)
  {
  }

  lemma EvictedIs(net: Network, s: Book, t: Book, k: Key, i: nat, r: Key, first: nat, nb: nat)
    requires Sound(net, s, {}) && k in s.index && !s.index[k].tried && IsFirst(s.addrNew, k, first)
    requires |s.addrTried[net.TriedBucket(k)]| >= TRIED_BUCKET_SIZE
    requires t == s.(addrNew := Cleared(s.addrNew, k, |s.addrNew|),
                     index := s.index[k := s.index[k].(refs := 0)], nNew := s.nNew - 1)
    requires IsOldest(t.index, t.addrTried[net.TriedBucket(k)], i) && r == t.addrTried[net.TriedBucket(k)][i]
    requires r in s.index && s.index[r].tried && nb == EvictedTo(net, s, k, r, first)
    ensures Sound(net, Evicted(t, net.TriedBucket(k), k, i, r, nb), {})
    ensures Moved(net, s, k, Evicted(t, net.TriedBucket(k), k, i, r, nb))
  {
    EvictedFits(net, s, k, r, first);
    SwappedIsSound(net, s, k, i, nb);
    EvictedIsSwapped(net, s, t, k, i, r, nb);
    assert IsOldest(s.index, s.addrTried[net.TriedBucket(k)], i);
  }

  class AddrManager {
    const net: Network
    var book: Book

    ghost predicate Valid()
      reads this
    {
      Sound(net, book, {})
    }

    /** New. */
    constructor (net: Network)
      ensures Valid() && this.net == net && book.index == map[]
    {
      this.net := net;
      book := Empty();
      new;
      EmptyIsSound(net);
    }

    /** Takes an address out of a new bucket, and forgets it with its last one. */
    method Unlink(b: nat, k: Key, ghost loose: set<Key>)
      requires Sound(net, book, loose) && b < |book.addrNew| && k in book.addrNew[b]
      modifies this
      ensures k in old(book).index && old(book).index[k].refs > 0 && book == Unlinked(old(book), b, k)
      ensures Sound(net, book, loose)
    {
      UnlinkedIsSound(net, book, loose, b, k);
      book := Unlinked(book, b, k);
    }

    /** The loop of expireNew: throws the bad addresses of a bucket away and finds the oldest of the others. */
    method ExpireBad(b: nat, bad: KnownAddress -> bool, ghost loose: set<Key>) returns (oldest: Option<Key>)
      requires Sound(net, book, loose) && b < |book.addrNew|
      modifies this
      ensures Sound(net, book, loose) && Confined(old(book), book, b, old(book).addrNew[b])
      ensures book.addrNew[b] == old(book).addrNew[b] - BadKeys(old(book).index, old(book).addrNew[b], bad)
      ensures OldestOf(old(book).index, old(book).addrNew[b], bad, oldest)
    {
      ghost var s0 := book;
      var keys := book.addrNew[b];
      var left := keys;
      oldest := None;
      assert NewBucketOk(s0.index, s0.addrNew, b);
      while left != {}
        invariant Sound(net, book, loose) && Expiring(s0, book, b, keys, left, bad)
        invariant OldestOf(s0.index, keys - left, bad, oldest)
        decreases left
      {
        var k :| k in left;
        if bad(book.index[k]) {
          UnlinkedIsSound(net, book, loose, b, k);
          ExpiringStep(s0, book, b, keys, left, bad, k);
          Unlink(b, k, loose);
        } else if oldest.None? || book.index[k].na.timestamp <= book.index[oldest.value].na.timestamp {
          oldest := Some(k);
        }
        left := left - {k};
      }
    }

    /** expireNew. */
    method ExpireNew(b: nat, bad: KnownAddress -> bool, ghost loose: set<Key>)
      requires Sound(net, book, loose) && b < |book.addrNew|
      modifies this
      ensures Sound(net, book, loose) && Confined(old(book), book, b, old(book).addrNew[b])
      ensures Expired(old(book).index, old(book).addrNew[b], bad, book.addrNew[b])
    {
      ghost var s0, keys := book, book.addrNew[b];
      assert NewBucketOk(book.index, book.addrNew, b);
      var oldest := ExpireBad(b, bad, loose);
      ghost var good := keys - BadKeys(s0.index, keys, bad);
      if oldest.Some? {
        assert oldest.value in good;
        UnlinkedIsSound(net, book, loose, b, oldest.value);
        ConfinedUnlink(s0, book, b, keys, oldest.value);
        Unlink(b, oldest.value, loose);
        assert book.addrNew[b] == good - {oldest.value};
      } else {
        assert good == {};
      }
    }

    /** The second half of updateAddress: an address that may lack a new bucket goes into one. */
    method AddToNew(k: Key, b: nat, bad: KnownAddress -> bool)
      requires Sound(net, book, {k}) && b < |book.addrNew|
      requires k in book.index && !book.index[k].tried && book.index[k].refs < NEW_BUCKETS_PER_ADDRESS
      modifies this
      ensures Valid() && k in book.index && book.addrTried == old(book).addrTried && book.nTried == old(book).nTried
      ensures Joined(old(book), b, k, bad, book)
    {
      assert EntryOk(book.index, book.addrNew, {k}, k) && NewBucketOk(book.index, book.addrNew, b);
      if k in book.addrNew[b] {
        CountIsZero(book.addrNew, k);
        Excused(net, book, {k}, {});
        return;
      }
      if |book.addrNew[b]| > NEW_BUCKET_SIZE {
        ghost var s0 := book;
        ExpireNew(b, bad, {k});
        assert EntryKept(s0, book, k);
        ExpiredIsSmaller(s0.index, s0.addrNew[b], bad, book.addrNew[b]);
        JoinedExpired(s0, book, b, k, bad);
      }
      LinkedIsSound(net, book, {k}, b, k);
      assert {k} - {k} == {};
      book := Linked(book, b, k);
    }

    /** updateAddress, with the random number drawn for it. */
    method UpdateAddress(na: NetAddr, src: NetAddr, random: nat, bad: KnownAddress -> bool)
      requires Valid()
      modifies this
      ensures Valid() && book.addrTried == old(book).addrTried && book.nTried == old(book).nTried
      ensures !net.routable(na.key) ==> book == old(book)
      ensures net.routable(na.key) && na.key in old(book).index ==>
        && na.key in book.index && Announced(old(book).index[na.key].na, na, book.index[na.key].na)
        && UpdatedWith(net, old(book), na, src, random, bad, book.index[na.key].na, book)
      ensures net.routable(na.key) && na.key !in old(book).index ==>
        && Joined(Indexed(old(book), KnownAddress(na, src, 0, 0, 0, false, 0)), net.NewBucket(na.key, src.key), na.key,
             bad, book)
        && na.key in book.index && book.index[na.key] == KnownAddress(na, src, 0, 0, 0, false, 1)
        && na.key in book.addrNew[net.NewBucket(na.key, src.key)]
    {
      if !net.routable(na.key) {
        return;
      }
      var k := na.key;
      if k in book.index {
        assert EntryOk(book.index, book.addrNew, {}, k);
        RefreshedIsAnnounced(book.index[k].na, na);
        var ka := book.index[k].(na := Refreshed(book.index[k].na, na));
        TouchedIsSound(net, book, {}, k, ka);
        book := book.(index := book.index[k := ka]);
        if ka.tried || ka.refs == NEW_BUCKETS_PER_ADDRESS || random % (2 * ka.refs) != 0 {
          return;
        }
        Excused(net, book, {}, {k});
      } else {
        var ka := KnownAddress(na, src, 0, 0, 0, false, 0);
        assert NewBucketOk(book.index, book.addrNew, net.NewBucket(k, src.key));
        IndexedIsSound(net, book, {}, ka);
        assert {} + {k} == {k};
        book := Indexed(book, ka);
      }
      AddToNew(k, net.NewBucket(k, src.key), bad);
    }

    /** Attempt. */
    method Attempt(k: Key, now: int)
      requires Valid()
      modifies this
      ensures Valid()
      ensures book == if k !in old(book).index then old(book) else
        var ka := old(book).index[k];
        old(book).(index := old(book).index[k := ka.(attempts := ka.attempts + 1, lastAttempt := now)])
    {
      if k in book.index {
        assert EntryOk(book.index, book.addrNew, {}, k);
        var ka := book.index[k].(attempts := book.index[k].attempts + 1, lastAttempt := now);
        TouchedIsSound(net, book, {}, k, ka);
        book := book.(index := book.index[k := ka]);
      }
    }

    /** Connected: the last seen time moves on when it is more than twenty minutes old. */
    method Connected(k: Key, now: int)
      requires Valid()
      modifies this
      ensures Valid()
      ensures k in old(book).index && now > old(book).index[k].na.timestamp + 20 * 60 ==>
        var ka := old(book).index[k];
        book == old(book).(index := old(book).index[k := ka.(na := ka.na.(timestamp := now))])
      ensures k !in old(book).index || now <= old(book).index[k].na.timestamp + 20 * 60 ==> book == old(book)
    {
      if k in book.index && now > book.index[k].na.timestamp + 20 * 60 {
        assert EntryOk(book.index, book.addrNew, {}, k);
        var ka := book.index[k].(na := book.index[k].na.(timestamp := now));
        TouchedIsSound(net, book, {}, k, ka);
        book := book.(index := book.index[k := ka]);
      }
    }

    /** The loop of Good: out of every new bucket, noting the first. */
    method ClearNew(k: Key) returns (first: int)
      requires Valid() && k in book.index && !book.index[k].tried
      modifies this
      ensures book == old(book).(addrNew := Cleared(old(book).addrNew, k, |old(book).addrNew|),
                                 index := old(book).index[k := old(book).index[k].(refs := 0)])
      ensures IsFirst(old(book).addrNew, k, first)
    {
      ghost var s0 := book;
      assert EntryOk(book.index, book.addrNew, {}, k);
      first := -1;
      assert Cleared(s0.addrNew, k, 0) == s0.addrNew;
      for i := 0 to NEW_BUCKET_COUNT
        invariant Clearing(s0, book, k, i)
        invariant if first == -1 then forall c :: 0 <= c < i ==> k !in s0.addrNew[c]
                  else first < i && IsFirst(s0.addrNew, k, first)
      {
        ClearingStep(s0, book, k, i);
        if k in book.addrNew[i] {
          book := ClearedAt(book, k, i);
          if first == -1 {
            first := i;
          }
        }
      }
      assert s0.addrNew[..NEW_BUCKET_COUNT] == s0.addrNew;
      CountIsZero(s0.addrNew, k);
    }

    /** The second half of Good: from the new buckets to the tried ones. */
    method MoveToTried(k: Key)
      requires Valid() && k in book.index && !book.index[k].tried
      modifies this
      ensures Valid() && Moved(net, old(book), k, book)
    {
      ghost var s := book;
      var tb := net.TriedBucket(k);
      var first := ClearNew(k);
      book := book.(nNew := book.nNew - 1);
      if |book.addrTried[tb]| < TRIED_BUCKET_SIZE {
        PromotedIsSound(net, s, k);
        book := book.(index := book.index[k := book.index[k].(tried := true)],
                      addrTried := book.addrTried[tb := book.addrTried[tb] + [k]],
                      nTried := book.nTried + 1);
        assert book == Promoted(net, s, k);
      } else {
        Evict(k, first, s);
      }
    }

    /** Good with a full tried bucket. */
    method Evict(k: Key, first: nat, ghost s: Book)
      requires Sound(net, s, {}) && k in s.index && !s.index[k].tried && IsFirst(s.addrNew, k, first)
      requires |s.addrTried[net.TriedBucket(k)]| >= TRIED_BUCKET_SIZE
      requires book == s.(addrNew := Cleared(s.addrNew, k, |s.addrNew|),
                          index := s.index[k := s.index[k].(refs := 0)], nNew := s.nNew - 1)
      modifies this
      ensures Valid() && Moved(net, s, k, book)
    {
      var tb := net.TriedBucket(k);
      ListIsTried(net, s, tb);
      var oldest := PickTried(book.index, book.addrTried[tb]);
      var i := oldest.value;
      var r := book.addrTried[tb][i];
      var nb := net.NewBucket(book.index[r].na.key, book.index[r].src.key);
      if |book.addrNew[nb]| >= NEW_BUCKET_SIZE {
        nb := first;
      }
      EvictedIs(net, s, book, k, i, r, first, nb);
      book := Evicted(book, tb, k, i, r, nb);
    }

    /** Good. */
    method Good(k: Key, now: int)
      requires Valid()
      modifies this
      ensures Valid() && book.index.Keys == old(book).index.Keys
      ensures k !in old(book).index ==> book == old(book)
      ensures k in old(book).index ==>
        var s := old(book).(index := old(book).index[k := Succeeded(old(book).index[k], now)]);
        if old(book).index[k].tried then book == s else Moved(net, s, k, book)
      ensures k in old(book).index ==>
        book.index[k] == KnownAddress(old(book).index[k].na, old(book).index[k].src, 0, now, now, true, 0)
    {
      if k !in book.index {
        return;
      }
      assert EntryOk(book.index, book.addrNew, {}, k);
      TouchedIsSound(net, book, {}, k, Succeeded(book.index[k], now));
      book := book.(index := book.index[k := Succeeded(book.index[k], now)]);
      if !book.index[k].tried {
        ghost var s := book;
        MoveToTried(k);
        MovedKeepsKeys(net, s, k, book);
      }
    }
  }
}
