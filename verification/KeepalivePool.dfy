/** The keepalive connection pool of the TFS client: per bucket of peer addresses, a queue of
    parked connections and a queue of unused items.

    Models modules/ngx_http_tfs_module/ngx_http_connection_pool.c. Items and connections are
    numbers, peer addresses byte sequences; the address hash is a parameter. */
module KeepalivePool {
  import opened Sequences

  /** A pool item that holds a parked connection; `freeTo` names the free queue it goes back
      to. */
  datatype Slot = Slot(item: nat, conn: nat, addr: seq<nat>, freeTo: nat)

  function Ids(cache: seq<Slot>): seq<nat> {
    seq(|cache|, i requires 0 <= i < |cache| => cache[i].item)
  }

  function Without<T>(s: seq<T>, i: nat): seq<T>
    requires i < |s|
  {
    s[..i] + s[i + 1..]
  }

  lemma WithoutMultiset(s: seq<nat>, i: nat)
    requires i < |s|
    ensures multiset(Without(s, i)) == multiset(s) - multiset{s[i]}
  {
    assert s == s[..i] + [s[i]] + s[i + 1..];
  }

  lemma IdsWithout(cache: seq<Slot>, i: nat)
    requires i < |cache|
    ensures Ids(Without(cache, i)) == Without(Ids(cache), i)
  {
  }

  ghost function Numbers(n: nat): multiset<nat> {
    if n == 0 then multiset{} else Numbers(n - 1) + multiset{n - 1}
  }

  lemma {:induction false} NumbersOnce(n: nat, k: nat)
    ensures Numbers(n)[k] == if k < n then 1 else 0
  {
    if n > 0 {
      NumbersOnce(n - 1, k);
    }
  }

  /** The two queues together hold the items 0 to `max` - 1. */
  ghost predicate Partition(cache: seq<Slot>, free: seq<nat>, max: nat) {
    multiset(Ids(cache)) + multiset(free) == Numbers(max)
  }

  /** Every item is in exactly one of the two queues, once. */
  lemma EachItemOnce(cache: seq<Slot>, free: seq<nat>, max: nat, k: nat)
    requires Partition(cache, free, max)
    ensures multiset(Ids(cache))[k] + multiset(free)[k] == if k < max then 1 else 0
  {
    NumbersOnce(max, k);
    assert (multiset(Ids(cache)) + multiset(free))[k] == multiset(Ids(cache))[k] + multiset(free)[k];
  }

  /** The two queues of a bucket, and how they change. */
  datatype Bucket = Bucket(cache: seq<Slot>, free: seq<nat>)

  /** Slot `i` leaves the cache queue and its item becomes the first free one. */
  function Released(k: Bucket, i: nat): Bucket
    requires i < |k.cache|
  {
    Bucket(Without(k.cache, i), [k.cache[i].item] + k.free)
  }

  /** A bucket without a free item gives up the connection parked longest. */
  function RoomMade(k: Bucket): Bucket {
    if k.free == [] && k.cache != [] then Released(k, |k.cache| - 1) else k
  }

  function Evicted(k: Bucket): set<nat> {
    if k.free == [] && k.cache != [] then {k.cache[|k.cache| - 1].conn} else {}
  }

  /** The first free item parks the connection. */
  function ParkedAs(k: Bucket, b: nat, conn: nat, addr: seq<nat>): Bucket {
    if k.free == [] then k else Bucket([Slot(k.free[0], conn, addr, b)] + k.cache, k.free[1..])
  }

  /** What saving a connection makes of its bucket; `closes` when the last test closes it. */
  function Saved(k: Bucket, b: nat, conn: nat, addr: seq<nat>, closes: bool): Bucket {
    var parked := ParkedAs(RoomMade(k), b, conn, addr);
    if closes && parked.cache != [] then Released(parked, 0) else parked
  }

  /** Connections given out and not yet closed, connections the pool closed, and for the
      parked ones when they were parked and in which bucket. */
  datatype Book = Book(held: set<nat>, closed: set<nat>, parkedAt: map<nat, nat>, parkedIn: map<nat, nat>, clock: nat)

  /** A connection parked in bucket `b` is there by its address and is neither held nor closed. */
  ghost predicate SlotOk(s: Slot, b: nat, bucketOf: seq<nat> -> nat, book: Book) {
    && bucketOf(s.addr) == s.freeTo == b
    && s.conn in book.parkedIn && book.parkedIn[s.conn] == b
    && s.conn in book.parkedAt && book.parkedAt[s.conn] < book.clock
    && s.conn !in book.held && s.conn !in book.closed
  }

  /** The latest parked comes first. */
  ghost predicate LatestFirst(cache: seq<Slot>, parkedAt: map<nat, nat>) {
    forall i, j :: 0 <= i < j < |cache| && cache[i].conn in parkedAt && cache[j].conn in parkedAt ==>
      parkedAt[cache[i].conn] > parkedAt[cache[j].conn]
  }

  ghost predicate BucketOk(k: Bucket, b: nat, max: nat, bucketOf: seq<nat> -> nat, book: Book) {
    && Partition(k.cache, k.free, max)
    && (forall i :: 0 <= i < |k.cache| ==> SlotOk(k.cache[i], b, bucketOf, book))
    && LatestFirst(k.cache, book.parkedAt)
  }

  ghost predicate Absent(cache: seq<Slot>, conn: nat) {
    forall i :: 0 <= i < |cache| ==> cache[i].conn != conn
  }

  /** `book'` says the same of every connection but `conn`. */
  ghost predicate SameBut(book: Book, book': Book, conn: nat) {
    && book.clock <= book'.clock
    && book'.held - {conn} == book.held - {conn} && book'.closed - {conn} == book.closed - {conn}
    && (forall c :: c != conn && c in book.parkedAt ==> c in book'.parkedAt && book'.parkedAt[c] == book.parkedAt[c])
    && (forall c :: c != conn && c in book.parkedIn ==> c in book'.parkedIn && book'.parkedIn[c] == book.parkedIn[c])
  }

  lemma OtherConn(k: Bucket, b: nat, max: nat, bucketOf: seq<nat> -> nat, book: Book, book': Book, conn: nat)
    requires BucketOk(k, b, max, bucketOf, book) && Absent(k.cache, conn) && SameBut(book, book', conn)
    ensures BucketOk(k, b, max, bucketOf, book')
  {
    forall i | 0 <= i < |k.cache| ensures SlotOk(k.cache[i], b, bucketOf, book') {
      assert SlotOk(k.cache[i], b, bucketOf, book);
      assert k.cache[i].conn !in book'.held - {conn} && k.cache[i].conn !in book'.closed - {conn};
    }
    forall i, j | 0 <= i < j < |k.cache| ensures book'.parkedAt[k.cache[i].conn] > book'.parkedAt[k.cache[j].conn] {
      assert SlotOk(k.cache[i], b, bucketOf, book) && SlotOk(k.cache[j], b, bucketOf, book);
    }
  }

  lemma ReleasePartition(cache: seq<Slot>, free: seq<nat>, max: nat, i: nat)
    requires Partition(cache, free, max) && i < |cache|
    ensures Partition(Without(cache, i), [cache[i].item] + free, max)
  {
    IdsWithout(cache, i);
    WithoutMultiset(Ids(cache), i);
    assert Ids(cache)[i] in multiset(Ids(cache));
  }

  /** Taking a slot out of the cache queue and putting its item first in the free queue. */
  lemma ReleaseOk(k: Bucket, b: nat, max: nat, bucketOf: seq<nat> -> nat, book: Book, i: nat)
    requires BucketOk(k, b, max, bucketOf, book) && i < |k.cache|
    ensures BucketOk(Released(k, i), b, max, bucketOf, book)
    ensures Absent(Released(k, i).cache, k.cache[i].conn)
  {
    ReleasePartition(k.cache, k.free, max, i);
    var r := Without(k.cache, i);
    forall j | 0 <= j < |r| ensures SlotOk(r[j], b, bucketOf, book) && r[j].conn != k.cache[i].conn {
      var l := if j < i then j else j + 1;
      assert r[j] == k.cache[l] && SlotOk(k.cache[l], b, bucketOf, book) && SlotOk(k.cache[i], b, bucketOf, book);
    }
    assert LatestFirst(r, book.parkedAt) by {
      assert forall j :: 0 <= j < |r| ==> r[j] == if j < i then k.cache[j] else k.cache[j + 1];
    }
  }

  lemma ParkPartition(cache: seq<Slot>, free: seq<nat>, max: nat, s: Slot)
    requires Partition(cache, free, max) && free != [] && s.item == free[0]
    ensures Partition([s] + cache, free[1..], max)
  {
    assert Ids([s] + cache) == [s.item] + Ids(cache);
    assert free == [free[0]] + free[1..];
  }

  /** The first free item parks a connection at the head of the cache queue. */
  lemma ParkOk(
      k: Bucket, b: nat, max: nat, bucketOf: seq<nat> -> nat, book: Book, conn: nat, addr: seq<nat>, book': Book)
    requires BucketOk(k, b, max, bucketOf, book) && Absent(k.cache, conn) && SameBut(book, book', conn) && k.free != []
    requires SlotOk(Slot(k.free[0], conn, addr, b), b, bucketOf, book') && book'.parkedAt[conn] == book.clock
    ensures BucketOk(ParkedAs(k, b, conn, addr), b, max, bucketOf, book')
  {
    OtherConn(k, b, max, bucketOf, book, book', conn);
    ParkPartition(k.cache, k.free, max, Slot(k.free[0], conn, addr, b));
    forall j | 0 <= j < |k.cache| ensures book'.parkedAt[conn] > book'.parkedAt[k.cache[j].conn] {
      assert SlotOk(k.cache[j], b, bucketOf, book);
    }
  }

  /** With no free item there is a parked connection to evict. */
  lemma SomethingToEvict(cache: seq<Slot>, max: nat)
    requires Partition(cache, [], max) && max > 0
    ensures cache != []
  {
    EachItemOnce(cache, [], max, 0);
    assert 0 in multiset(Ids(cache));
  }

  /** No connection of the bucket was parked before `conn`. */
  ghost predicate Oldest(k: Bucket, parkedAt: map<nat, nat>, conn: nat) {
    && conn in parkedAt && (exists i :: 0 <= i < |k.cache| && k.cache[i].conn == conn)
    && forall i :: 0 <= i < |k.cache| ==>
         k.cache[i].conn in parkedAt && parkedAt[conn] <= parkedAt[k.cache[i].conn]
  }

  /** Only a bucket without a free item gives a connection up, and it is the oldest; the others
      stay parked, in their order. */
  lemma EvictedIsOldest(k: Bucket, b: nat, max: nat, bucketOf: seq<nat> -> nat, book: Book)
    requires BucketOk(k, b, max, bucketOf, book) && max > 0
    ensures k.free != [] ==> Evicted(k) == {} && RoomMade(k) == k
    ensures k.free == [] ==>
              exists c :: Evicted(k) == {c} && Oldest(k, book.parkedAt, c)
                          && RoomMade(k).cache == k.cache[..|k.cache| - 1] && Absent(RoomMade(k).cache, c)
  {
    if k.free == [] {
      SomethingToEvict(k.cache, max);
      var last := |k.cache| - 1;
      var c := k.cache[last].conn;
      forall i | 0 <= i < |k.cache|
        ensures k.cache[i].conn in book.parkedAt && book.parkedAt[c] <= book.parkedAt[k.cache[i].conn]
      {
        assert SlotOk(k.cache[i], b, bucketOf, book) && SlotOk(k.cache[last], b, bucketOf, book);
      }
      ReleaseOk(k, b, max, bucketOf, book, last);
      assert Without(k.cache, last) == k.cache[..last];
      assert Oldest(k, book.parkedAt, c);
    }
  }

  lemma UpdateTwice(s: seq<Bucket>, b: nat, x: Bucket, y: Bucket)
    requires b < |s|
    ensures s[b := x][b := y] == s[b := y] && s[b := s[b]] == s
  {
  }

  /** The first slot with the address, or the length of the queue. */
  function First(cache: seq<Slot>, addr: seq<nat>): (i: nat)
    ensures i <= |cache| && (i < |cache| ==> cache[i].addr == addr)
    ensures forall j :: 0 <= j < i ==> cache[j].addr != addr
  {
    if cache == [] || cache[0].addr == addr then 0 else 1 + First(cache[1..], addr)
  }

  lemma {:induction false} FirstIs(cache: seq<Slot>, addr: seq<nat>, i: nat)
    requires i <= |cache| && (i < |cache| ==> cache[i].addr == addr)
    requires forall j :: 0 <= j < i ==> cache[j].addr != addr
    ensures First(cache, addr) == i
  {
    if i > 0 {
      FirstIs(cache[1..], addr, i - 1);
    }
  }

  class Pool {
    const bucketCount: nat
    const maxCached: nat
    const bucketOf: seq<nat> -> nat
    var buckets: seq<Bucket>
    var failed: bool
    ghost var book: Book

    ghost predicate Valid()
      reads this
    {
      && maxCached > 0 && (forall a :: bucketOf(a) < bucketCount)
      && |buckets| == bucketCount
      && (forall b :: 0 <= b < bucketCount ==> BucketOk(buckets[b], b, maxCached, bucketOf, book))
      && book.held !! book.closed
    }

    /** ngx_http_connection_pool_init; the hash is taken modulo the bucket count. */
    constructor (bucketCount: nat, maxCached: nat, bucketOf: seq<nat> -> nat)
      requires maxCached > 0 && forall a :: bucketOf(a) < bucketCount
      ensures Valid() && this.bucketCount == bucketCount && this.maxCached == maxCached && this.bucketOf == bucketOf
      ensures forall b :: 0 <= b < bucketCount ==> buckets[b].cache == []
    {
      this.bucketCount, this.maxCached, this.bucketOf := bucketCount, maxCached, bucketOf;
      var items := AllItems(maxCached);
      buckets := seq(bucketCount, b => Bucket([], items));
      failed := false;
      book := Book({}, {}, map[], map[], 0);
    }

    /** Parked nowhere. */
    ghost predicate Gone(conn: nat)
      reads this
    {
      forall b :: 0 <= b < |buckets| ==> Absent(buckets[b].cache, conn)
    }

    /** Takes slot `i` out of bucket `b`'s cache queue; its item becomes the first free one. */
    method Unpark(b: nat, i: nat) returns (s: Slot)
      requires Valid() && b < bucketCount && i < |buckets[b].cache|
      modifies `buckets
      ensures Valid() && s == old(buckets[b].cache[i]) && Gone(s.conn)
      ensures buckets == old(buckets)[b := Released(old(buckets[b]), i)]
    {
      s := buckets[b].cache[i];
      assert SlotOk(s, b, bucketOf, book);
      ReleaseOk(buckets[b], b, maxCached, bucketOf, book, i);
      forall c | 0 <= c < bucketCount && c != b ensures Absent(buckets[c].cache, s.conn) {
        assert forall j :: 0 <= j < |buckets[c].cache| ==> SlotOk(buckets[c].cache[j], c, bucketOf, book);
      }
      buckets := buckets[s.freeTo := Released(buckets[b], i)];
    }

    /** Notes that a connection parked nowhere is now held, or closed. */
    ghost method Rebook(conn: nat, book': Book)
      requires Valid() && Gone(conn) && SameBut(book, book', conn) && book'.held !! book'.closed
      modifies `book
      ensures Valid() && book == book'
    {
      forall b | 0 <= b < bucketCount ensures BucketOk(buckets[b], b, maxCached, bucketOf, book') {
        OtherConn(buckets[b], b, maxCached, bucketOf, book, book', conn);
      }
      book := book';
    }

    /** The search of ngx_http_connection_pool_get. */
    method FirstFor(b: nat, addr: seq<nat>) returns (i: nat)
      requires b < |buckets|
      ensures i == First(buckets[b].cache, addr)
    {
      i := 0;
      while i < |buckets[b].cache| && buckets[b].cache[i].addr != addr
        invariant i <= |buckets[b].cache| && forall j :: 0 <= j < i ==> buckets[b].cache[j].addr != addr
      {
        i := i + 1;
      }
      FirstIs(buckets[b].cache, addr, i);
    }

    /** If slot `s` of bucket `b` holds another connection to `addr`, it was parked before `conn`. */
    ghost predicate Older(s: Slot, b: nat, conn: nat, addr: seq<nat>)
      reads `book
    {
      s.addr == addr && s.conn != conn ==>
        && SlotOk(s, b, bucketOf, book) && conn in book.parkedAt
        && book.parkedAt[s.conn] < book.parkedAt[conn]
    }

    /** The latest parked connection to `addr`, in whichever bucket one might look. */
    ghost predicate IsLatest(conn: nat, addr: seq<nat>)
      requires Valid()
      reads this
    {
      && (exists b, i :: 0 <= b < bucketCount && 0 <= i < |buckets[b].cache|
            && buckets[b].cache[i].conn == conn && buckets[b].cache[i].addr == addr)
      && (forall b, i :: 0 <= b < bucketCount && 0 <= i < |buckets[b].cache| ==>
           Older(buckets[b].cache[i], b, conn, addr))
    }

    ghost predicate Parked(addr: seq<nat>)
      requires Valid()
      reads this
    {
      exists b, i :: 0 <= b < bucketCount && 0 <= i < |buckets[b].cache| && buckets[b].cache[i].addr == addr
    }

    lemma FirstIsLatest(b: nat, i: nat, addr: seq<nat>)
      requires Valid() && b == bucketOf(addr) && i < |buckets[b].cache| && buckets[b].cache[i].addr == addr
      requires forall j :: 0 <= j < i ==> buckets[b].cache[j].addr != addr
      ensures IsLatest(buckets[b].cache[i].conn, addr)
    {
      assert SlotOk(buckets[b].cache[i], b, bucketOf, book);
      forall c, j | 0 <= c < bucketCount && 0 <= j < |buckets[c].cache|
        ensures Older(buckets[c].cache[j], c, buckets[b].cache[i].conn, addr)
      {
        assert BucketOk(buckets[c], c, maxCached, bucketOf, book);
        assert SlotOk(buckets[c].cache[j], c, bucketOf, book);
        if buckets[c].cache[j].addr == addr && buckets[c].cache[j].conn != buckets[b].cache[i].conn {
          assert c == b && i < j;
        }
      }
    }

    lemma NoneParked(b: nat, addr: seq<nat>)
      requires Valid() && b == bucketOf(addr)
      requires forall j :: 0 <= j < |buckets[b].cache| ==> buckets[b].cache[j].addr != addr
      ensures !Parked(addr)
    {
      forall c, j | 0 <= c < bucketCount && 0 <= j < |buckets[c].cache| ensures buckets[c].cache[j].addr != addr {
        assert BucketOk(buckets[c], c, maxCached, bucketOf, book);
        assert SlotOk(buckets[c].cache[j], c, bucketOf, book);
      }
    }

    /** The connection in slot `i` of bucket `b` gets a holder. */
    method HandOut(b: nat, i: nat) returns (conn: nat)
      requires Valid() && b < bucketCount && i < |buckets[b].cache|
      modifies `buckets, `book
      ensures Valid() && conn == old(buckets[b].cache[i].conn) && Gone(conn)
      ensures buckets == old(buckets)[b := Released(old(buckets[b]), i)]
      ensures conn !in old(book.held) && book == old(book).(held := old(book.held) + {conn})
    {
      assert SlotOk(buckets[b].cache[i], b, bucketOf, book);
      var s := Unpark(b, i);
      Rebook(s.conn, book.(held := book.held + {s.conn}));
      return s.conn;
    }

    /** ngx_http_connection_pool_get */
    method Get(addr: seq<nat>) returns (r: Option<nat>)
      requires Valid()
      modifies this
      ensures Valid() && !failed
      ensures r.Some? <==> old(Parked(addr))
      ensures r.Some? ==> old(IsLatest(r.value, addr)) && Gone(r.value)
      ensures var b := bucketOf(addr);
              var k := old(buckets[b]);
              var i := First(k.cache, addr);
              if i == |k.cache| then r.None? && buckets == old(buckets) && book == old(book)
              else
                && r == Some(k.cache[i].conn) && buckets == old(buckets)[b := Released(k, i)]
                && r.value !in old(book.held) && book == old(book).(held := old(book.held) + {r.value})
    {
      failed := false;
      var b := bucketOf(addr);
      var i := FirstFor(b, addr);
      if i == |buckets[b].cache| {
        NoneParked(b, addr);
        return None;
      }
      FirstIsLatest(b, i, addr);
      var conn := HandOut(b, i);
      return Some(conn);
    }

    /** ngx_http_connection_pool_close_handler for slot `i` of bucket `b`; `check` is what it
        makes of the connection. */
    method CloseHandler(b: nat, i: nat, check: CloseCheck)
      requires Valid() && b < bucketCount && i < |buckets[b].cache|
      modifies `buckets, `book
      ensures Valid() && book.held == old(book.held)
      ensures check.Stale? ==> buckets == old(buckets) && book == old(book)
      ensures check.MustClose? ==> buckets == old(buckets)[b := Released(old(buckets[b]), i)]
      ensures check.MustClose? ==> Gone(old(buckets[b].cache[i].conn))
      ensures check.MustClose? ==> book == old(book).(closed := old(book.closed) + {old(buckets[b].cache[i].conn)})
    {
      if check.Stale? {
        return;
      }
      assert SlotOk(buckets[b].cache[i], b, bucketOf, book);
      var s := Unpark(b, i);
      Rebook(s.conn, book.(closed := book.closed + {s.conn}));
    }

    lemma RoomFor(b: nat)
      requires Valid() && b < bucketCount
      ensures RoomMade(buckets[b]).free != []
    {
      assert BucketOk(buckets[b], b, maxCached, bucketOf, book);
      if buckets[b].free == [] {
        SomethingToEvict(buckets[b].cache, maxCached);
      }
    }

    /** Makes sure bucket `b` has a free item, closing the connection parked longest there if
        need be. */
    method MakeRoom(b: nat)
      requires Valid() && b < bucketCount
      modifies `buckets, `book
      ensures Valid() && buckets[b].free != [] && buckets == old(buckets)[b := RoomMade(old(buckets[b]))]
      ensures book == old(book).(closed := old(book.closed) + Evicted(old(buckets[b])))
      ensures old(buckets[b]).free == [] ==>
                exists c :: book.closed == old(book.closed) + {c} && Oldest(old(buckets[b]), old(book.parkedAt), c)
      ensures old(buckets[b]).free != [] ==> book == old(book) && buckets == old(buckets)
    {
      EvictedIsOldest(buckets[b], b, maxCached, bucketOf, book);
      RoomFor(b);
      if buckets[b].free == [] {
        CloseHandler(b, |buckets[b].cache| - 1, MustClose);
      }
    }

    /** Puts a held connection into the first free item of its bucket. */
    method Park(conn: nat, addr: seq<nat>)
      requires Valid() && conn in book.held && Gone(conn) && buckets[bucketOf(addr)].free != []
      modifies `buckets, `book
      ensures Valid() && book.held == old(book.held) - {conn} && book.closed == old(book.closed)
      ensures var b := bucketOf(addr);
              buckets == old(buckets)[b := ParkedAs(old(buckets[b]), b, conn, addr)]
    {
      var b := bucketOf(addr);
      ghost var book' := Book(book.held - {conn}, book.closed, book.parkedAt[conn := book.clock],
                              book.parkedIn[conn := b], book.clock + 1);
      ParkOk(buckets[b], b, maxCached, bucketOf, book, conn, addr, book');
      forall c | 0 <= c < bucketCount && c != b ensures BucketOk(buckets[c], c, maxCached, bucketOf, book') {
        OtherConn(buckets[c], c, maxCached, bucketOf, book, book', conn);
      }
      buckets, book := buckets[b := ParkedAs(buckets[b], b, conn, addr)], book';
    }

    /** A connection that is given out is parked nowhere. */
    lemma HeldIsGone(conn: nat)
      requires Valid() && conn in book.held
      ensures Gone(conn)
    {
      forall b, i | 0 <= b < bucketCount && 0 <= i < |buckets[b].cache| ensures buckets[b].cache[i].conn != conn {
        assert BucketOk(buckets[b], b, maxCached, bucketOf, book);
        assert SlotOk(buckets[b].cache[i], b, bucketOf, book);
      }
    }

    /** The second half of ngx_http_connection_pool_free: the connection is worth keeping. */
    method Save(conn: nat, addr: seq<nat>, ready: bool, check: CloseCheck)
      requires Valid() && conn in book.held
      modifies `buckets, `book
      ensures Valid() && book.held == old(book.held) - {conn}
      ensures var b, closes := bucketOf(addr), ready && check.MustClose?;
              && buckets == old(buckets)[b := Saved(old(buckets[b]), b, conn, addr, closes)]
              && book.closed == old(book.closed) + Evicted(old(buckets[b])) + (if closes then {conn} else {})
    {
      var b := bucketOf(addr);
      ghost var k := buckets[b];
      MakeRoom(b);
      HeldIsGone(conn);
      UpdateTwice(old(buckets), b, RoomMade(k), ParkedAs(RoomMade(k), b, conn, addr));
      Park(conn, addr);
      if ready {
        UpdateTwice(old(buckets), b, buckets[b], Saved(k, b, conn, addr, true));
        CloseHandler(b, 0, check);
      }
    }

    /** ngx_http_connection_pool_free; `broken` stands for the end-of-file, error and timeout
        flags of the connection, `ready` and `check` for the last test. */
    method FreePeer(conn: Option<nat>, addr: seq<nat>, peerFailed: bool, broken: bool, readEventOk: bool,
                    ready: bool, check: CloseCheck) returns (parked: bool)
      requires Valid() && (conn.Some? ==> conn.value in book.held)
      modifies this
      ensures Valid() && failed == (old(failed) || peerFailed)
      ensures parked <==> !failed && conn.Some? && !broken && readEventOk
      ensures !parked ==> buckets == old(buckets) && book == old(book)
      ensures parked ==>
                var b, closes := bucketOf(addr), ready && check.MustClose?;
                && buckets == old(buckets)[b := Saved(old(buckets[b]), b, conn.value, addr, closes)]
                && book.held == old(book.held) - {conn.value}
                && book.closed == old(book.closed) + Evicted(old(buckets[b])) + (if closes then {conn.value} else {})
    {
      if peerFailed {
        failed := true;
      }
      if failed || conn.None? || broken || !readEventOk {
        return false;
      }
      Save(conn.value, addr, ready, check);
      return true;
    }

    /** A connection the caller has just opened. */
    ghost method Connect(conn: nat)
      requires Valid() && Gone(conn) && conn !in book.closed
      modifies `book
      ensures Valid() && book == old(book).(held := old(book.held) + {conn})
    {
      Rebook(conn, book.(held := book.held + {conn}));
    }
  }

  datatype CloseCheck = Stale | MustClose

  /** A connection that was just parked is the one the next get for its address returns, and
      what was parked before is as it was, but for the eviction. */
  lemma ParkedComesBack(k: Bucket, b: nat, conn: nat, addr: seq<nat>)
    requires RoomMade(k).free != []
    ensures var saved := Saved(k, b, conn, addr, false);
            && First(saved.cache, addr) == 0 && 0 < |saved.cache| && saved.cache[0].conn == conn
            && Released(saved, 0) == RoomMade(k)
  {
    var room := RoomMade(k);
    var saved := Saved(k, b, conn, addr, false);
    assert Without(saved.cache, 0) == room.cache;
    assert [room.free[0]] + room.free[1..] == room.free;
  }

  /** Parking and getting back leaves the pool as it was, but for an eviction. */
  method ParkThenGet(p: Pool, conn: nat, addr: seq<nat>) returns (r: Option<nat>)
    requires p.Valid() && !p.failed && conn in p.book.held
    modifies p
    ensures p.Valid() && !p.failed && r == Some(conn) && p.book.held == old(p.book.held)
    ensures var b := p.bucketOf(addr); p.buckets == old(p.buckets)[b := RoomMade(old(p.buckets[b]))]
  {
    var b := p.bucketOf(addr);
    ghost var k := p.buckets[b];
    p.RoomFor(b);
    ParkedComesBack(k, b, conn, addr);
    var parked := p.FreePeer(Some(conn), addr, false, false, true, false, Stale);
    r := p.Get(addr);
    UpdateTwice(old(p.buckets), b, Saved(k, b, conn, addr, false), RoomMade(k));
  }

  /** Two connections parked for one address in a bucket with room come back last in, first
      out, and leave the pool as it was. */
  method LastInFirstOut(p: Pool, c1: nat, c2: nat, addr: seq<nat>) returns (r1: Option<nat>, r2: Option<nat>)
    requires p.Valid() && !p.failed && c1 != c2 && {c1, c2} <= p.book.held && |p.buckets[p.bucketOf(addr)].free| >= 2
    modifies p
    ensures p.Valid() && r1 == Some(c2) && r2 == Some(c1)
    ensures p.buckets == old(p.buckets)
  {
    var b := p.bucketOf(addr);
    ghost var k := p.buckets[b];
    ParkedComesBack(k, b, c1, addr);
    var parked := p.FreePeer(Some(c1), addr, false, false, true, false, Stale);
    ghost var saved := p.buckets[b];
    r1 := ParkThenGet(p, c2, addr);
    UpdateTwice(p.buckets, b, saved, saved);
    r2 := p.Get(addr);
    UpdateTwice(old(p.buckets), b, saved, k);
  }

  /** The filling loop of init: each item is inserted at the head. */
  method AllItems(max: nat) returns (items: seq<nat>)
    ensures multiset(items) == Numbers(max)
  {
    items := [];
    for k := 0 to max
      invariant multiset(items) == Numbers(k)
    {
      items := [k] + items;
    }
  }
}
