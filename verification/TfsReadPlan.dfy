/** Planning a ranged read of a TFS large file: binary search over the segment table and
    trimming of the first and last fragment.

    Models modules/ngx_http_tfs_module/ngx_http_tfs_data_server_message.c, from
    ngx_http_tfs_set_meta_segment_data to ngx_http_tfs_get_segment_for_read. */
module TfsReadPlan {
  import opened Sequences
  import opened TfsSegments

  /** The parsed meta segment: the header's count and total size, and the rows that the
      buffer really holds. */
  datatype Meta = Meta(count: nat, size: nat, infos: seq<SegmentInfo>)

  /** A planned request to one data server. */
  datatype Piece = Piece(info: SegmentInfo, operOffset: nat, operSize: nat) {
    /** First byte asked for, as a position in the file. */
    function Start(): int { info.offset + operOffset }

    function End(): int { Start() + operSize }

    predicate Within() { 0 < operSize && operOffset + operSize <= info.size }
  }

  datatype ReadResult = ReadError | ReadDone | ReadOk(pieces: seq<Piece>, leftLength: nat)

  /** Rows that follow each other without gap or overlap from the start of the file. */
  predicate Contiguous(infos: seq<SegmentInfo>) {
    && (infos != [] ==> infos[0].offset == 0)
    && (forall k :: 0 <= k < |infos| ==> 0 < infos[k].size < TWO32)
    && (forall k :: 0 <= k < |infos| - 1 ==> infos[k + 1].offset == infos[k].offset + infos[k].size)
  }

  function Total(infos: seq<SegmentInfo>): int {
    if infos == [] then 0 else infos[|infos| - 1].offset + infos[|infos| - 1].size
  }

  predicate Ascending(infos: seq<SegmentInfo>) {
    forall i, j :: 0 <= i < j < |infos| ==> infos[i].offset < infos[j].offset
  }

  lemma {:induction false} RowsInOrder(infos: seq<SegmentInfo>, i: nat, j: nat)
    requires Contiguous(infos) && i < j < |infos|
    ensures infos[i].offset + infos[i].size <= infos[j].offset
    decreases j
  {
    if i + 1 < j {
      RowsInOrder(infos, i, j - 1);
    }
  }

  lemma ContiguousAscending(infos: seq<SegmentInfo>)
    requires Contiguous(infos)
    ensures Ascending(infos)
    ensures forall i :: 0 <= i < |infos| ==> 0 <= infos[i].offset && infos[i].offset + infos[i].size <= Total(infos)
  {
    forall i, j | 0 <= i < j < |infos| ensures infos[i].offset < infos[j].offset {
      RowsInOrder(infos, i, j);
    }
    forall i | 0 <= i < |infos|
      ensures 0 <= infos[i].offset && infos[i].offset + infos[i].size <= Total(infos)
    {
      if 0 < i { RowsInOrder(infos, 0, i); }
      if i < |infos| - 1 { RowsInOrder(infos, i, |infos| - 1); }
    }
  }

  /** ngx_http_tfs_find_segment. A hit gives its index; a miss gives the insertion index,
      negated, so that 0 means either "the first row" or "before every row". Of a table
      that does not ascend only the answers above 0 mean something. */
  method FindSegment(segCount: nat, infos: seq<SegmentInfo>, offset: int) returns (r: int)
    requires segCount <= |infos| && segCount <= 0x4000_0000
    ensures 0 <= segCount + r && (0 < r ==> r < segCount && infos[r].offset == offset)
    ensures Ascending(infos[..segCount]) ==>
              forall k :: 0 <= k < segCount && infos[k].offset == offset ==> r == k
    ensures Ascending(infos[..segCount]) && (forall k :: 0 <= k < segCount ==> infos[k].offset != offset) ==>
              && 0 <= -r <= segCount
              && (forall k :: 0 <= k < -r ==> infos[k].offset < offset)
              && (forall k :: -r <= k < segCount ==> offset < infos[k].offset)
  {
    ghost var rows := infos[..segCount];
    var start, end := 0, segCount - 1;
    while start <= end
      invariant 0 <= start <= end + 1 <= segCount
      invariant Ascending(rows) ==> forall k :: 0 <= k < start ==> rows[k].offset < offset
      invariant Ascending(rows) ==> forall k :: end < k < segCount ==> offset < rows[k].offset
      decreases end - start
    {
      var middle := (start + end) / 2;
      assert infos[middle] == rows[middle];
      if infos[middle].offset == offset {
        return middle;
      }
      if infos[middle].offset < offset {
        start := middle + 1;
      } else {
        end := middle - 1;
      }
    }
    return -start;
  }

  /** The number of rows the planner trusts. */
  function UsableRows(meta: Meta): nat
    requires meta.infos != []
  {
    if meta.count > |meta.infos| then |meta.infos| - 1 else meta.count
  }

  /** The pieces follow each other from `lo` to `hi`, each inside its fragment. */
  predicate Tile(pieces: seq<Piece>, lo: int, hi: int) {
    && pieces != []
    && pieces[0].Start() == lo
    && pieces[|pieces| - 1].End() == hi
    && (forall k :: 0 <= k < |pieces| ==> pieces[k].Within())
    && (forall k :: 0 <= k < |pieces| - 1 ==> pieces[k].End() == pieces[k + 1].Start())
  }

  /** A single piece that asks for bytes past the end of its fragment. */
  predicate Overrun(pieces: seq<Piece>) {
    |pieces| == 1 && pieces[0].info.size < pieces[0].operOffset + pieces[0].operSize
  }

  /** The row holding byte `x` of the file. */
  ghost predicate Holds(infos: seq<SegmentInfo>, k: nat, x: int) {
    k < |infos| && infos[k].offset <= x < infos[k].offset + infos[k].size
  }

  lemma ModSub(a: nat, b: nat)
    requires b <= a && a - b < TWO32
    ensures (a % TWO32 - b) % TWO32 == a - b
  {
    var q := a / TWO32;
    assert a % TWO32 - b == (a - b) - TWO32 * q;
    ModShift(a - b, q);
  }

  lemma {:induction false} ModShift(x: nat, q: nat)
    requires x < TWO32
    ensures (x - TWO32 * q) % TWO32 == x
  {
    if q != 0 {
      ModShift(x, q - 1);
      assert x - TWO32 * q == (x - TWO32 * (q - 1)) - TWO32;
    }
  }

  /** The row where a read starts: the last one that begins at or before `offset`, or row
      0 when there is none; -1 when that row ends at or before `offset`. A row that begins
      exactly at `offset` is taken whatever its size. */
  method StartRow(n: nat, infos: seq<SegmentInfo>, offset: nat) returns (s: int)
    requires n <= |infos| && n <= 0x4000_0000 && Ascending(infos[..n])
    ensures n == 0 || offset < infos[0].offset ==> s == 0
    ensures 0 < n && infos[0].offset <= offset ==>
              exists k :: LastAt(infos[..n], k, offset) && s == if EndsBefore(infos[k], offset) then -1 else k
  {
    ghost var rows := infos[..n];
    s := FindSegment(n, infos, offset);
    if s < 0 {
      s := 0 - s - 1;
      assert infos[s] == rows[s] && LastAt(rows, s, offset);
      if infos[s].offset + infos[s].size <= offset {
        s := -1;
      }
    } else if 0 < n && infos[0].offset <= offset {
      assert infos[s] == rows[s] && LastAt(rows, s, offset);
    }
  }

  /** Row `k` is the last that begins at or before byte `x`. */
  ghost predicate LastAt(infos: seq<SegmentInfo>, k: int, x: int) {
    && 0 <= k < |infos| && infos[k].offset <= x
    && forall j :: k < j < |infos| ==> x < infos[j].offset
  }

  predicate EndsBefore(row: SegmentInfo, x: int) {
    row.offset != x && row.offset + row.size <= x
  }

  /** Of contiguous rows the last that begins at or before `x` holds it, unless the table
      ends before. */
  lemma LastHolds(rows: seq<SegmentInfo>, k: nat, x: int)
    requires Contiguous(rows) && LastAt(rows, k, x)
    ensures EndsBefore(rows[k], x) <==> Total(rows) <= x
    ensures !EndsBefore(rows[k], x) ==> Holds(rows, k, x)
  {
    ContiguousAscending(rows);
    if k + 1 < |rows| {
      assert rows[k + 1].offset == rows[k].offset + rows[k].size;
    }
  }

  /** The row where a read up to `end` stops: the last one that begins before `end`; -1
      when there is none. */
  method EndRow(n: nat, infos: seq<SegmentInfo>, end: nat) returns (e: int)
    requires n <= |infos| && n <= 0x4000_0000 && Ascending(infos[..n])
    ensures e == -1 <==> n == 0 || end <= infos[0].offset
    ensures e != -1 ==> 0 <= e < n && infos[e].offset < end
    ensures e != -1 ==> forall k :: e < k < n ==> end <= infos[k].offset
  {
    ghost var rows := infos[..n];
    assert 0 < n ==> infos[0] == rows[0];
    e := FindSegment(n, infos, end);
    if e > 0 {
      assert infos[e] == rows[e] && infos[e - 1] == rows[e - 1];
      assert forall k :: e < k < n ==> rows[e].offset < rows[k].offset == infos[k].offset;
      e := e - 1;
    } else if e < 0 {
      e := 0 - e - 1;
    } else {
      e := -1;
    }
  }

  /** ngx_http_tfs_get_segment_for_read, for a table of contiguous rows and a non-empty
      range (an empty one is rejected when the request is parsed).

      The plan covers exactly the stored part of the range if and only if the range ends
      inside the table or starts at or before the last row; the 32-bit truncation of the
      first offset never matters. */
  method GetSegmentForRead(meta: Option<Meta>, size: nat, offset: nat) returns (r: ReadResult)
    requires 0 < size
    requires meta.Some? ==> Contiguous(meta.value.infos) && |meta.value.infos| <= 0x4000_0000
    requires meta.Some? ==> offset + (if size == MAX_SIZE then meta.value.size else size) < TWO63
    ensures meta.None? || meta.value.infos == [] ==> r.ReadError?
    ensures meta.Some? && meta.value.infos != [] ==>
              var m := meta.value;
              var rows := if m.count > |m.infos| then m.infos[..|m.infos| - 1] else m.infos[..m.count];
              var dataSize := if size == MAX_SIZE then m.size else size;
              var end := offset + dataSize;
              && (m.size <= offset ==> r.ReadDone?)
              && (offset < m.size && Total(rows) <= offset ==> r.ReadError?)
              && (offset < m.size && offset < Total(rows) ==>
                    && r.ReadOk?
                    && r.leftLength == dataSize
                    && Planned(r.pieces, rows, offset, end))
  {
    if meta.None? || meta.value.infos == [] {
      return ReadError;
    }
    var infos := meta.value.infos;
    var dataSize := if size == MAX_SIZE then meta.value.size else size;
    var end := offset + dataSize;
    if offset >= meta.value.size {
      return ReadDone;
    }
    var pieces := PlanRange(infos[..UsableRows(meta.value)], offset, end);
    r := if pieces.None? then ReadError else ReadOk(pieces.value, dataSize);
  }

  /** Finds the first and the last row of the range and plans the rows from one to the
      other. */
  method PlanRange(rows: seq<SegmentInfo>, offset: nat, end: nat) returns (pieces: Option<seq<Piece>>)
    requires Contiguous(rows) && |rows| <= 0x4000_0000 && offset < end
    ensures Total(rows) <= offset ==> pieces.None?
    ensures offset < Total(rows) ==> pieces.Some? && Planned(pieces.value, rows, offset, end)
  {
    var n := |rows|;
    assert rows[..n] == rows;
    ContiguousAscending(rows);
    var s := StartRow(n, rows, offset);
    if 0 < n {
      ghost var k :| LastAt(rows, k, offset) && s == if EndsBefore(rows[k], offset) then -1 else k;
      LastHolds(rows, k, offset);
    }
    if s < 0 {
      return None;
    }
    var e := EndRow(n, rows, end);
    if e < 0 {
      return None;
    }
    var plan := PlanRows(rows, s, e, offset, end);
    assert FromRows(plan, rows, s);
    return Some(plan);
  }

  /** The pieces ask for consecutive rows of the table. */
  ghost predicate FromRows(pieces: seq<Piece>, rows: seq<SegmentInfo>, s: nat) {
    && s + |pieces| <= |rows|
    && forall k :: 0 <= k < |pieces| ==> pieces[k].info == rows[s + k]
  }

  /** What a plan for [offset, end) promises: consecutive rows of the table that tile the
      stored part of the range, except when the range starts strictly inside the last row
      and ends past it; then the one piece overruns its fragment. */
  ghost predicate Planned(pieces: seq<Piece>, rows: seq<SegmentInfo>, offset: nat, end: nat) {
    && rows != []
    && (exists s: nat :: FromRows(pieces, rows, s))
    && (Tile(pieces, offset, Clip(rows, end)) <==> (end <= Total(rows) || offset <= rows[|rows| - 1].offset))
    && (!Tile(pieces, offset, Clip(rows, end)) ==> Overrun(pieces))
  }

  /** The stored part of a range that ends at `end`. */
  function Clip(rows: seq<SegmentInfo>, end: int): int {
    if end <= Total(rows) then end else Total(rows)
  }

  /** Copies rows `s` to `e` into the segment array, each to be read whole. */
  method CopyRows(rows: seq<SegmentInfo>, s: nat, e: nat) returns (pieces: seq<Piece>)
    requires s <= e < |rows|
    ensures |pieces| == e - s + 1
    ensures forall k :: 0 <= k < |pieces| ==> pieces[k] == Piece(rows[s + k], 0, rows[s + k].size)
  {
    pieces := [];
    var i := s;
    while i <= e
      invariant s <= i <= e + 1 && |pieces| == i - s
      invariant forall k :: 0 <= k < |pieces| ==> pieces[k] == Piece(rows[s + k], 0, rows[s + k].size)
    {
      pieces := pieces + [Piece(rows[i], 0, rows[i].size)];
      i := i + 1;
    }
  }

  /** Fills the segment array for rows `s` to `e` and trims both ends. */
  method PlanRows(rows: seq<SegmentInfo>, s: nat, e: nat, offset: nat, end: nat)
    returns (pieces: seq<Piece>)
    requires Contiguous(rows) && offset < end && Holds(rows, s, offset)
    requires e < |rows| && rows[e].offset < end && forall k :: e < k < |rows| ==> end <= rows[k].offset
    ensures FromRows(pieces, rows, s)
    ensures Tile(pieces, offset, Clip(rows, end)) <==> (end <= Total(rows) || offset <= rows[|rows| - 1].offset)
    ensures !Tile(pieces, offset, Clip(rows, end)) ==> Overrun(pieces)
  {
    ContiguousAscending(rows);
    pieces := CopyRows(rows, s, e);
    var first := TrimFirst(pieces[0], offset);
    pieces := pieces[0 := first];
    var last := TrimLast(pieces[|pieces| - 1], end);
    pieces := pieces[|pieces| - 1 := last];
    TrimmedPlan(rows, s, e, offset, end, pieces);
  }

  /** The first piece starts at `offset`: 32-bit subtraction of the row's offset. */
  method TrimFirst(p: Piece, offset: nat) returns (q: Piece)
    requires 0 <= p.info.offset <= offset < p.info.offset + p.info.size && p.info.size < TWO32
    ensures q.info == p.info && q.Start() == offset && q.End() == p.info.offset + p.info.size
  {
    var operOffset := offset % TWO32;
    ModSub(offset, p.info.offset);
    if p.info.offset > 0 {
      operOffset := (operOffset - p.info.offset) % TWO32;
    }
    q := Piece(p.info, operOffset, (p.info.size - operOffset) % TWO32);
  }

  /** The last piece stops at `end`, or after a whole row's size. */
  method TrimLast(p: Piece, end: nat) returns (q: Piece)
    requires 0 <= p.info.offset && p.Start() < end && p.info.size < TWO32
    ensures q.info == p.info && q.operOffset == p.operOffset
    ensures q.operSize == Min(end - p.Start(), p.info.size)
  {
    q := p.(operSize := Min(end - (p.info.offset + p.operOffset), p.info.size) % TWO32);
  }

  lemma TrimmedPlan(rows: seq<SegmentInfo>, s: nat, e: nat, offset: nat, end: nat, pieces: seq<Piece>)
    requires Contiguous(rows) && offset < end && s <= e < |rows| && Holds(rows, s, offset)
    requires rows[e].offset < end && forall k :: e < k < |rows| ==> end <= rows[k].offset
    requires |pieces| == e - s + 1
    requires forall k :: 0 <= k < |pieces| ==> pieces[k].info == rows[s + k]
    requires forall k :: 0 < k < |pieces| ==> pieces[k].operOffset == 0
    requires pieces[0].Start() == offset
    requires s < e ==> pieces[0].End() == rows[s].offset + rows[s].size
    requires forall k :: 0 < k < |pieces| - 1 ==> pieces[k].operSize == rows[s + k].size
    requires pieces[e - s].operSize == Min(end - pieces[e - s].Start(), rows[e].size)
    ensures Tile(pieces, offset, Clip(rows, end)) <==> (end <= Total(rows) || offset <= rows[|rows| - 1].offset)
    ensures !Tile(pieces, offset, Clip(rows, end)) ==> Overrun(pieces)
  {
    if s < e {
      assert pieces[e - s].info == rows[e];
      TrimmedMany(rows, s, e, offset, end, pieces);
    } else {
      TrimmedOne(rows, s, offset, end, pieces);
    }
  }

  /** A plan over several rows always covers the stored part of the range. */
  lemma TrimmedMany(rows: seq<SegmentInfo>, s: nat, e: nat, offset: nat, end: nat, pieces: seq<Piece>)
    requires Contiguous(rows) && s < e < |rows| && Holds(rows, s, offset)
    requires rows[e].offset < end && forall k :: e < k < |rows| ==> end <= rows[k].offset
    requires |pieces| == e - s + 1
    requires forall k :: 0 <= k < |pieces| ==> pieces[k].info == rows[s + k]
    requires forall k :: 0 < k < |pieces| ==> pieces[k].operOffset == 0
    requires pieces[0].Start() == offset && pieces[0].End() == rows[s].offset + rows[s].size
    requires forall k :: 0 < k < |pieces| - 1 ==> pieces[k].operSize == rows[s + k].size
    requires pieces[e - s].operSize == Min(end - rows[e].offset, rows[e].size)
    ensures Tile(pieces, offset, Clip(rows, end)) && offset <= rows[|rows| - 1].offset
  {
    ContiguousAscending(rows);
    assert pieces[e - s].info == rows[e];
    RowsInOrder(rows, s, e);
    if e < |rows| - 1 {
      assert end <= rows[e + 1].offset;
      RowsInOrder(rows, e, |rows| - 1);
    }
  }

  /** A plan inside one row covers it unless the range starts inside the last row and runs
      past the table's end. */
  lemma TrimmedOne(rows: seq<SegmentInfo>, s: nat, offset: nat, end: nat, pieces: seq<Piece>)
    requires Contiguous(rows) && offset < end && Holds(rows, s, offset)
    requires forall k :: s < k < |rows| ==> end <= rows[k].offset
    requires |pieces| == 1 && pieces[0].info == rows[s] && pieces[0].Start() == offset
    requires pieces[0].operSize == Min(end - offset, rows[s].size)
    ensures Tile(pieces, offset, Clip(rows, end)) <==> (end <= Total(rows) || offset <= rows[|rows| - 1].offset)
    ensures !Tile(pieces, offset, Clip(rows, end)) ==> Overrun(pieces)
  {
    ContiguousAscending(rows);
    if s < |rows| - 1 {
      assert end <= rows[s + 1].offset;
      RowsInOrder(rows, s, |rows| - 1);
    }
  }

  // ------------------------------------------------------------- the round trip

  /** ngx_http_tfs_set_meta_segment_data: the table written after the last fragment. */
  method SetMetaSegmentData(segments: seq<WriteSegment>, fileSize: nat) returns (meta: Meta)
    ensures meta.count == |segments| == |meta.infos| && meta.size == fileSize
    ensures forall k :: 0 <= k < |segments| ==> meta.infos[k] == segments[k].info
  {
    var infos := [];
    var i := 0;
    while i < |segments|
      invariant 0 <= i <= |segments| && |infos| == i
      invariant forall k :: 0 <= k < i ==> infos[k] == segments[k].info
    {
      infos := infos + [segments[i].info];
      i := i + 1;
    }
    meta := Meta(|segments|, fileSize, infos);
  }

  /** The data servers hold the fragments of `body` under the ids in the table. */
  ghost predicate StoredAs(infos: seq<SegmentInfo>, body: seq<Byte>, store: map<nat, seq<Byte>>) {
    && |infos| == SegmentCount(|body|)
    && forall k :: 0 <= k < |infos| ==> StoredRow(infos[k], k, body, store)
  }

  ghost predicate StoredRow(row: SegmentInfo, k: nat, body: seq<Byte>, store: map<nat, seq<Byte>>) {
    && k * MAX_FRAGMENT_SIZE < |body|
    && row.offset == k * MAX_FRAGMENT_SIZE
    && row.size == |Fragment(body, k)|
    && row.id in store
    && store[row.id] == Fragment(body, k)
  }

  lemma StoredContiguous(infos: seq<SegmentInfo>, body: seq<Byte>, store: map<nat, seq<Byte>>)
    requires StoredAs(infos, body, store)
    ensures Contiguous(infos) && Total(infos) == |body|
  {
    forall k | 0 <= k < |infos|
      ensures 0 < infos[k].size < TWO32
      ensures k + 1 < |infos| ==> infos[k + 1].offset == infos[k].offset + infos[k].size
      ensures k + 1 == |infos| ==> infos[k].offset + infos[k].size == |body|
    {
      assert StoredRow(infos[k], k, body, store);
      SegmentBounds(|body|, k);
      if k + 1 < |infos| { assert StoredRow(infos[k + 1], k + 1, body, store); }
    }
    if infos != [] { assert StoredRow(infos[0], 0, body, store); }
  }

  /** The bytes the data servers send for a plan, one piece after the other. */
  function ReadBytes(pieces: seq<Piece>, store: map<nat, seq<Byte>>): seq<Byte>
    requires forall k :: 0 <= k < |pieces| ==> Readable(pieces[k], store)
  {
    ReadFrom(pieces, store, 0)
  }

  /** What the pieces from the `i`th on read. */
  function ReadFrom(pieces: seq<Piece>, store: map<nat, seq<Byte>>, i: nat): seq<Byte>
    requires i <= |pieces| && forall k :: 0 <= k < |pieces| ==> Readable(pieces[k], store)
    decreases |pieces| - i
  {
    if i == |pieces| then [] else PieceBytes(pieces[i], store) + ReadFrom(pieces, store, i + 1)
  }

  function PieceBytes(p: Piece, store: map<nat, seq<Byte>>): seq<Byte>
    requires Readable(p, store)
  {
    store[p.info.id][p.operOffset..p.operOffset + p.operSize]
  }

  predicate Readable(p: Piece, store: map<nat, seq<Byte>>) {
    p.info.id in store && p.operOffset + p.operSize <= |store[p.info.id]|
  }

  /** The piece's bytes are those of the body at the piece's file position. */
  ghost predicate Yields(p: Piece, body: seq<Byte>, store: map<nat, seq<Byte>>) {
    && Readable(p, store) && 0 <= p.Start() <= p.End() <= |body|
    && PieceBytes(p, store) == body[p.Start()..p.End()]
  }

  lemma SliceOfSlice(s: seq<Byte>, a: nat, b: nat, i: nat, j: nat)
    requires a <= b <= |s| && i <= j <= b - a
    ensures s[a..b][i..j] == s[a + i..a + j]
  {
    forall k | 0 <= k < j - i ensures s[a..b][i..j][k] == s[a + i..a + j][k] {
    }
  }

  /** A piece inside a stored fragment yields the body's bytes. */
  lemma PieceYields(p: Piece, k: nat, body: seq<Byte>, store: map<nat, seq<Byte>>)
    requires StoredRow(p.info, k, body, store) && p.Within()
    ensures Yields(p, body, store)
  {
    var at := k * MAX_FRAGMENT_SIZE;
    SliceOfSlice(body, at, at + p.info.size, p.operOffset, p.operOffset + p.operSize);
  }

  lemma JoinSlices(body: seq<Byte>, lo: nat, mid: nat, hi: nat)
    requires lo <= mid <= hi <= |body|
    ensures body[lo..mid] + body[mid..hi] == body[lo..hi]
  {
  }

  /** Pieces that tile up to `hi` and yield the body's bytes yield that stretch of it. */
  lemma {:induction false} TiledYields(
      pieces: seq<Piece>, body: seq<Byte>, store: map<nat, seq<Byte>>, i: nat, lo: int, hi: int)
    requires Tile(pieces, lo, hi) && i < |pieces|
    requires forall k :: 0 <= k < |pieces| ==> Readable(pieces[k], store) && Yields(pieces[k], body, store)
    ensures 0 <= pieces[i].Start() <= hi <= |body|
    ensures ReadFrom(pieces, store, i) == body[pieces[i].Start()..hi]
    decreases |pieces| - i
  {
    assert Yields(pieces[i], body, store);
    if i + 1 < |pieces| {
      TiledYields(pieces, body, store, i + 1, lo, hi);
      JoinSlices(body, pieces[i].Start(), pieces[i].End(), hi);
    } else {
      assert ReadFrom(pieces, store, i + 1) == [];
    }
  }

  /** Reading any plan that tiles [lo, hi) gives back exactly those bytes of the body. */
  lemma TiledPlanReads(
      body: seq<Byte>, infos: seq<SegmentInfo>, store: map<nat, seq<Byte>>,
      pieces: seq<Piece>, s: nat, lo: int, hi: int)
    requires StoredAs(infos, body, store) && FromRows(pieces, infos, s) && Tile(pieces, lo, hi)
    ensures forall k :: 0 <= k < |pieces| ==> Readable(pieces[k], store)
    ensures 0 <= lo <= hi <= |body|
    ensures ReadBytes(pieces, store) == body[lo..hi]
  {
    forall k | 0 <= k < |pieces| ensures Readable(pieces[k], store) && Yields(pieces[k], body, store) {
      PieceYields(pieces[k], s + k, body, store);
    }
    TiledYields(pieces, body, store, 0, lo, hi);
  }

  /** Storing the written fragments under the ids the name server chose. */
  ghost predicate Uploaded(segments: seq<WriteSegment>, meta: Meta, store: map<nat, seq<Byte>>) {
    && |meta.infos| == |segments|
    && forall k :: 0 <= k < |segments| ==>
         && meta.infos[k].offset == segments[k].info.offset
         && meta.infos[k].size == segments[k].info.size
         && meta.infos[k].id in store
         && store[meta.infos[k].id] == Flatten(segments[k].data)
  }

  lemma UploadedIsStored(
      body: seq<Byte>, segments: seq<WriteSegment>, meta: Meta,
      store: map<nat, seq<Byte>>, version: nat, requestOffset: int)
    requires Written(segments, body, true, version, requestOffset) && Uploaded(segments, meta, store)
    ensures StoredAs(meta.infos, body, store)
    ensures Contiguous(meta.infos) && Total(meta.infos) == |body|
  {
    forall k | 0 <= k < |meta.infos| ensures StoredRow(meta.infos[k], k, body, store) {
      assert WrittenAt(segments[k], k, body, true, version, requestOffset);
    }
    StoredContiguous(meta.infos, body, store);
  }

  /** Reading the pieces gives exactly `want`. */
  ghost predicate Serves(pieces: seq<Piece>, store: map<nat, seq<Byte>>, want: seq<Byte>) {
    && (forall k :: 0 <= k < |pieces| ==> Readable(pieces[k], store))
    && ReadBytes(pieces, store) == want
  }

  /** A plan serves the stored part of the range exactly when it tiles it. */
  lemma TilesIffServes(
      body: seq<Byte>, infos: seq<SegmentInfo>, store: map<nat, seq<Byte>>,
      pieces: seq<Piece>, s: nat, lo: nat, hi: nat)
    requires StoredAs(infos, body, store) && FromRows(pieces, infos, s)
    requires lo <= hi <= |body|
    requires !Tile(pieces, lo, hi) ==> Overrun(pieces)
    ensures Serves(pieces, store, body[lo..hi]) <==> Tile(pieces, lo, hi)
  {
    if Tile(pieces, lo, hi) {
      TiledPlanReads(body, infos, store, pieces, s, lo, hi);
    } else {
      assert StoredRow(infos[s], s, body, store);
      assert !Readable(pieces[0], store);
    }
  }

  /** The last row of a stored table. */
  lemma StoredLastRow(infos: seq<SegmentInfo>, body: seq<Byte>, store: map<nat, seq<Byte>>)
    requires StoredAs(infos, body, store) && body != []
    ensures infos != [] && infos[|infos| - 1].offset == (SegmentCount(|body|) - 1) * MAX_FRAGMENT_SIZE
    ensures Contiguous(infos) && Total(infos) == |body|
  {
    StoredContiguous(infos, body, store);
    assert 0 < SegmentCount(|body|);
    assert StoredRow(infos[|infos| - 1], |infos| - 1, body, store);
  }

  lemma PlannedServes(
      body: seq<Byte>, infos: seq<SegmentInfo>, store: map<nat, seq<Byte>>,
      pieces: seq<Piece>, offset: nat, end: nat)
    requires StoredAs(infos, body, store) && offset < |body| && offset < end
    requires Planned(pieces, infos, offset, end)
    ensures Serves(pieces, store, body[offset..Min(end, |body|)]) <==>
              (end <= |body| || offset <= (SegmentCount(|body|) - 1) * MAX_FRAGMENT_SIZE)
  {
    StoredLastRow(infos, body, store);
    var s: nat :| FromRows(pieces, infos, s);
    assert Clip(infos, end) == Min(end, |body|);
    TilesIffServes(body, infos, store, pieces, s, offset, Min(end, |body|));
  }

  /** Write and read undo each other: whatever the buffer chain was, and wherever the name
      server placed the fragments, planning a range over the stored table serves exactly
      the asked bytes (those that exist) if and only if the range ends inside the file or
      does not start strictly inside the last fragment. */
  method PlanStored(ghost body: seq<Byte>, ghost store: map<nat, seq<Byte>>, meta: Meta, size: nat, offset: nat)
    returns (r: ReadResult)
    requires body != [] && StoredAs(meta.infos, body, store)
    requires meta.count == |meta.infos| <= 0x4000_0000 && meta.size == |body|
    requires 0 < size && offset + (if size == MAX_SIZE then |body| else size) < TWO63
    ensures |body| <= offset ==> r.ReadDone?
    ensures offset < |body| ==> r.ReadOk?
    ensures offset < |body| ==>
              var end := offset + if size == MAX_SIZE then |body| else size;
              Serves(r.pieces, store, body[offset..Min(end, |body|)]) <==>
                (end <= |body| || offset <= (SegmentCount(|body|) - 1) * MAX_FRAGMENT_SIZE)
  {
    StoredLastRow(meta.infos, body, store);
    assert meta.infos[..UsableRows(meta)] == meta.infos;
    r := GetSegmentForRead(Some(meta), size, offset);
    if offset < |body| {
      ghost var end := offset + if size == MAX_SIZE then |body| else size;
      assert Planned(r.pieces, meta.infos, offset, end);
      PlannedServes(body, meta.infos, store, r.pieces, offset, end);
    }
  }

  lemma SmallFileIsOneSegment()
    ensures SegmentCount(10) == 1
  {
  }

  /** The condition is needed: every plan for ten bytes from byte 4 of a ten-byte file fails. */
  lemma PastEndPlanFails(body: seq<Byte>, infos: seq<SegmentInfo>, store: map<nat, seq<Byte>>, pieces: seq<Piece>)
    requires |body| == 10 && StoredAs(infos, body, store) && Planned(pieces, infos, 4, 14)
    ensures !Serves(pieces, store, body[4..10])
  {
    SmallFileIsOneSegment();
    PlannedServes(body, infos, store, pieces, 4, 14);
  }

  /** Each segment goes to the data server under the id the name server gave it. */
  method Upload(segments: seq<WriteSegment>, ids: seq<nat>)
    returns (placed: seq<WriteSegment>, ghost store: map<nat, seq<Byte>>)
    requires |ids| == |segments| && forall i, j :: 0 <= i < j < |ids| ==> ids[i] != ids[j]
    ensures |placed| == |segments|
    ensures forall k :: 0 <= k < |segments| ==>
              && placed[k] == segments[k].(info := segments[k].info.(id := ids[k]))
              && ids[k] in store && store[ids[k]] == Flatten(segments[k].data)
  {
    placed, store := [], map[];
    for i := 0 to |segments|
      invariant |placed| == i
      invariant forall k :: 0 <= k < i ==>
                  && placed[k] == segments[k].(info := segments[k].info.(id := ids[k]))
                  && ids[k] in store && store[ids[k]] == Flatten(segments[k].data)
    {
      placed := placed + [segments[i].(info := segments[i].info.(id := ids[i]))];
      store := store[ids[i] := Flatten(segments[i].data)];
    }
  }

  /** From the request body to the read plan: a large file is cut, uploaded, its table stored
      and any range of it planned. */
  method WriteThenRead(body: SendBody, version: nat, requestOffset: int, ids: seq<nat>, size: nat, offset: nat)
    returns (r: ReadResult, ghost store: map<nat, seq<Byte>>)
    requires body.Valid() && body.Left() != [] && requestOffset >= APPEND_OFFSET
    requires |ids| == SegmentCount(|body.Left()|) <= 0x4000_0000
    requires forall i, j :: 0 <= i < j < |ids| ==> ids[i] != ids[j]
    requires 0 < size && offset + (if size == MAX_SIZE then |body.Left()| else size) < TWO63
    modifies body
    ensures var content := old(body.Left());
            var end := offset + if size == MAX_SIZE then |content| else size;
            if |content| <= offset then r.ReadDone?
            else
              && r.ReadOk?
              && (Serves(r.pieces, store, content[offset..Min(end, |content|)]) <==>
                    (end <= |content| || offset <= (SegmentCount(|content|) - 1) * MAX_FRAGMENT_SIZE))
  {
    ghost var content := body.Left();
    var fileSize := ChainSize(body.bufs);
    NonEmptyBody(body.bufs);
    var w := body.GetSegmentForWrite(true, version, requestOffset);
    var placed;
    placed, store := Upload(w.segments, ids);
    var meta := SetMetaSegmentData(placed, fileSize);
    UploadedIsStored(content, w.segments, meta, store, version, requestOffset);
    r := PlanStored(content, store, meta, size, offset);
  }

  lemma NonEmptyBody(bufs: seq<BodyBuf>)
    requires ValidChain(bufs) && Body(bufs) != []
    ensures bufs != []
  {
  }
}
