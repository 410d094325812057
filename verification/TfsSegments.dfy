/** Large-file segments of the TFS client: cutting an uploaded body into fragments,
    recording them in the meta segment, and planning a ranged read over that table.

    Models modules/ngx_http_tfs_module/ngx_http_tfs_data_server_message.c. Offsets and
    sizes are unbounded integers; the places where the C code narrows to 32 bits are
    written out with `% TWO32`. */
module TfsSegments {
  import opened Sequences

  const MAX_FRAGMENT_SIZE: nat := 2 * 1024 * 1024
  const APPEND_OFFSET: int := -1
  const MAX_SIZE: nat := 0xFFFF_FFFF_FFFF_FFFE
  const TWO32: nat := 0x1_0000_0000
  const TWO63: nat := 0x8000_0000_0000_0000

  /** One row of the segment table; `id` stands for the (block_id, file_id) pair that
      names the stored fragment. */
  datatype SegmentInfo = SegmentInfo(id: nat, offset: int, size: nat)

  // ------------------------------------------------------------------ writing

  /** An nginx buffer of the request body: a window of `bytes`, which lie in memory or in
      a temporary file. */
  datatype BodyBuf = BodyBuf(bytes: seq<Byte>, inMemory: bool, pos: nat, last: nat, filePos: nat, fileLast: nat) {

    predicate Valid() {
      if inMemory then pos <= last <= |bytes| else filePos <= fileLast <= |bytes|
    }

    /** ngx_buf_size */
    function Size(): nat
      requires Valid()
    {
      if inMemory then last - pos else fileLast - filePos
    }

    /** What is left to read of this buffer. */
    function Window(): (w: seq<Byte>)
      requires Valid()
      ensures |w| == Size()
    {
      if inMemory then bytes[pos..last] else bytes[filePos..fileLast]
    }

    /** The same buffer with its read position `n` bytes further on. */
    function Advance(n: nat): (b: BodyBuf)
      requires Valid() && n <= Size()
      ensures b.Valid() && b.Window() == Window()[n..]
    {
      if inMemory then this.(pos := pos + n) else this.(filePos := filePos + n)
    }
  }

  predicate ValidChain(bufs: seq<BodyBuf>) {
    forall i :: 0 <= i < |bufs| ==> bufs[i].Valid()
  }

  function Windows(bufs: seq<BodyBuf>): (ws: seq<seq<Byte>>)
    requires ValidChain(bufs)
  {
    seq(|bufs|, i requires 0 <= i < |bufs| => bufs[i].Window())
  }

  /** The bytes a chain of buffers still has to give. */
  function Body(bufs: seq<BodyBuf>): seq<Byte>
    requires ValidChain(bufs)
  {
    Flatten(Windows(bufs))
  }

  /** Sum of the buffer sizes: ngx_http_tfs_get_chain_buf_size. */
  method ChainSize(bufs: seq<BodyBuf>) returns (size: nat)
    requires ValidChain(bufs)
    ensures size == |Body(bufs)|
  {
    size := 0;
    var i := 0;
    ghost var ws := Windows(bufs);
    while i < |bufs|
      invariant 0 <= i <= |bufs|
      invariant size == |Flatten(ws[..i])|
    {
      assert ws[..i + 1] == ws[..i] + [ws[i]];
      FlattenSnoc(ws[..i], ws[i]);
      size := size + bufs[i].Size();
      i := i + 1;
    }
    assert ws[..i] == ws;
  }

  lemma NothingLeft(bufs: seq<BodyBuf>)
    requires ValidChain(bufs) && forall i :: 0 <= i < |bufs| ==> bufs[i].Window() == []
    ensures Body(bufs) == []
  {
    FlattenEmpties(Windows(bufs));
  }

  /** Taking `n` bytes off the first buffer that has any takes them off the body. */
  lemma TakeFrom(bufs: seq<BodyBuf>, j: nat, n: nat)
    requires ValidChain(bufs) && j < |bufs| && n <= bufs[j].Size()
    requires forall i :: 0 <= i < j ==> bufs[i].Window() == []
    ensures var rest := bufs[j := bufs[j].Advance(n)];
            && ValidChain(rest) && (forall i :: 0 <= i < j ==> rest[i].Window() == [])
            && Body(bufs) == bufs[j].Window()[..n] + Body(rest)
  {
    var ws, rest := Windows(bufs), bufs[j := bufs[j].Advance(n)];
    FlattenDrop(ws, j, n);
    assert Windows(rest) == ws[j := ws[j][n..]];
    assert Flatten(ws) == Flatten(ws)[..n] + Flatten(ws)[n..];
  }

  /** The number of fragments a body of `n` bytes is cut into. */
  function SegmentCount(n: nat): nat {
    (n + MAX_FRAGMENT_SIZE - 1) / MAX_FRAGMENT_SIZE
  }

  lemma SegmentBounds(n: nat, k: nat)
    requires k < SegmentCount(n)
    ensures k * MAX_FRAGMENT_SIZE < n
    ensures k + 1 < SegmentCount(n) <==> (k + 1) * MAX_FRAGMENT_SIZE < n
  {
  }

  /** The `k`-th fragment of a body. */
  function Fragment(body: seq<Byte>, k: nat): seq<Byte>
    requires k * MAX_FRAGMENT_SIZE <= |body|
  {
    body[k * MAX_FRAGMENT_SIZE..Min((k + 1) * MAX_FRAGMENT_SIZE, |body|)]
  }

  /** What is left of a body after its first `k` fragments. */
  function AfterFragments(body: seq<Byte>, k: nat): seq<Byte> {
    if k * MAX_FRAGMENT_SIZE <= |body| then body[k * MAX_FRAGMENT_SIZE..] else []
  }

  /** Cutting the next fragment's length off what is left of a body gives that fragment. */
  lemma CutFragment(body: seq<Byte>, k: nat, data: seq<Byte>, left: seq<Byte>)
    requires k < SegmentCount(|body|)
    requires AfterFragments(body, k) == data + left
    requires |data| == Min(|data + left|, MAX_FRAGMENT_SIZE)
    ensures k * MAX_FRAGMENT_SIZE < |body| && data == Fragment(body, k)
    ensures left == AfterFragments(body, k + 1)
  {
    SegmentBounds(|body|, k);
  }

  datatype WriteSegment = WriteSegment(info: SegmentInfo, operSize: nat, data: seq<seq<Byte>>)

  datatype WriteResult = WriteError | WriteOk(segments: seq<WriteSegment>)

  /** What the write plan promises: the fragments, in order, hold exactly the body; the
      recorded sizes are the fragments' lengths; and the recorded offsets are those of the
      file kind (a large file starts at 0, a custom file at the requested offset or, when
      appending, always at -1, and a raw small file at 0). */
  ghost predicate Written(segments: seq<WriteSegment>, body: seq<Byte>, isLarge: bool, version: nat, offset: int)
  {
    |segments| == SegmentCount(|body|) && WrittenSoFar(segments, body, isLarge, version, offset)
  }

  ghost predicate WrittenSoFar(
    segments: seq<WriteSegment>, body: seq<Byte>, isLarge: bool, version: nat, offset: int)
  {
    forall k :: 0 <= k < |segments| ==> WrittenAt(segments[k], k, body, isLarge, version, offset)
  }

  lemma WrittenMore(
      segments: seq<WriteSegment>, s: WriteSegment, body: seq<Byte>, isLarge: bool, version: nat, offset: int)
    requires WrittenSoFar(segments, body, isLarge, version, offset)
    requires WrittenAt(s, |segments|, body, isLarge, version, offset)
    ensures WrittenSoFar(segments + [s], body, isLarge, version, offset)
  {
  }

  ghost predicate WrittenAt(s: WriteSegment, k: nat, body: seq<Byte>, isLarge: bool, version: nat, offset: int)
  {
    && k * MAX_FRAGMENT_SIZE < |body|
    && Flatten(s.data) == Fragment(body, k)
    && s.info.size == s.operSize == |Fragment(body, k)|
    && s.info.offset == SegmentOffset(k, isLarge, version, offset)
  }

  function SegmentOffset(k: nat, isLarge: bool, version: nat, offset: int): int {
    if isLarge then k * MAX_FRAGMENT_SIZE
    else if version != 2 then 0
    else if offset == APPEND_OFFSET then APPEND_OFFSET
    else offset + k * MAX_FRAGMENT_SIZE
  }

  function NextOffset(at: int, isLarge: bool, version: nat): int {
    if isLarge || (version == 2 && at != APPEND_OFFSET) then at + MAX_FRAGMENT_SIZE else at
  }

  lemma OffsetStep(k: nat, isLarge: bool, version: nat, offset: int)
    requires offset >= APPEND_OFFSET
    ensures NextOffset(SegmentOffset(k, isLarge, version, offset), isLarge, version)
         == SegmentOffset(k + 1, isLarge, version, offset)
  {
  }

  /** The segments lie end to end from `start` on. */
  predicate EndToEnd(segments: seq<WriteSegment>, start: int) {
    && (segments != [] ==> segments[0].info.offset == start)
    && forall k :: 0 <= k < |segments| - 1 ==>
         segments[k + 1].info.offset == segments[k].info.offset + segments[k].info.size
  }

  predicate AllAt(segments: seq<WriteSegment>, offset: int) {
    forall k :: 0 <= k < |segments| ==> segments[k].info.offset == offset
  }

  /** The offsets of each file kind: a large file's segments lie end to end from 0, a custom
      file's from the requested offset, unless it appends, which is what -1 says; a raw file's
      are all at 0. */
  lemma WrittenOffsets(segments: seq<WriteSegment>, body: seq<Byte>, isLarge: bool, version: nat, offset: int)
    requires Written(segments, body, isLarge, version, offset)
    ensures isLarge ==> EndToEnd(segments, 0)
    ensures !isLarge && version == 2 && offset != -1 ==> EndToEnd(segments, offset)
    ensures !isLarge && version == 2 && offset == -1 ==> AllAt(segments, -1)
    ensures !isLarge && version != 2 ==> AllAt(segments, 0)
  {
    forall k | 0 <= k < |segments|
      ensures segments[k].info.offset == SegmentOffset(k, isLarge, version, offset)
      ensures k + 1 < |segments| ==> segments[k].info.size == MAX_FRAGMENT_SIZE
    {
      assert WrittenAt(segments[k], k, body, isLarge, version, offset);
      SegmentBounds(|body|, k);
    }
  }

  function Datas(segments: seq<WriteSegment>): (ds: seq<seq<Byte>>)
    ensures |ds| == |segments| && forall k :: 0 <= k < |ds| ==> ds[k] == Flatten(segments[k].data)
  {
    seq(|segments|, k requires 0 <= k < |segments| => Flatten(segments[k].data))
  }

  /** The segments' data, one after the other, is the body; all are 2 MB but the last, which
      is not empty. */
  lemma WrittenBytes(segments: seq<WriteSegment>, body: seq<Byte>, isLarge: bool, version: nat, offset: int)
    requires Written(segments, body, isLarge, version, offset)
    ensures Flatten(Datas(segments)) == body
    ensures forall k :: 0 <= k < |segments| ==> |Flatten(segments[k].data)| == segments[k].info.size
    ensures forall k :: 0 <= k < |segments| - 1 ==> segments[k].info.size == 2 * 1024 * 1024
    ensures segments != [] ==> 0 < segments[|segments| - 1].info.size <= 2 * 1024 * 1024
  {
    forall k | 0 <= k < |segments|
      ensures |Flatten(segments[k].data)| == segments[k].info.size
      ensures k + 1 < |segments| ==> segments[k].info.size == MAX_FRAGMENT_SIZE
      ensures 0 < segments[k].info.size <= MAX_FRAGMENT_SIZE
    {
      assert WrittenAt(segments[k], k, body, isLarge, version, offset);
      SegmentBounds(|body|, k);
    }
    FragmentsJoin(segments, body, isLarge, version, offset, |segments|);
    NothingAfterAll(body);
    assert segments[..|segments|] == segments;
  }

  lemma {:induction false} FragmentsJoin(
      segments: seq<WriteSegment>, body: seq<Byte>, isLarge: bool, version: nat, offset: int, n: nat)
    requires Written(segments, body, isLarge, version, offset) && n <= |segments|
    ensures body == Flatten(Datas(segments[..n])) + AfterFragments(body, n)
  {
    if n == 0 {
      assert Datas(segments[..0]) == [];
    } else {
      FragmentsJoin(segments, body, isLarge, version, offset, n - 1);
      var s := segments[n - 1];
      assert WrittenAt(s, n - 1, body, isLarge, version, offset);
      assert Datas(segments[..n]) == Datas(segments[..n - 1]) + [Flatten(s.data)];
      FlattenSnoc(Datas(segments[..n - 1]), Flatten(s.data));
      NextFragment(body, n - 1);
      JoinLeft(Flatten(Datas(segments[..n - 1])), Fragment(body, n - 1), AfterFragments(body, n));
    }
  }

  lemma NextFragment(body: seq<Byte>, k: nat)
    requires k * MAX_FRAGMENT_SIZE < |body|
    ensures AfterFragments(body, k) == Fragment(body, k) + AfterFragments(body, k + 1)
  {
  }

  lemma NothingAfterAll(body: seq<Byte>)
    ensures AfterFragments(body, SegmentCount(|body|)) == []
  {
  }

  /** The request body as the write path consumes it: the buffers' read positions move
      forward in place, `body` is the index of the buffer being read. */
  class SendBody {
    var bufs: seq<BodyBuf>
    var body: nat

    constructor (bufs: seq<BodyBuf>)
      requires ValidChain(bufs)
      ensures this.bufs == bufs && body == 0 && Valid()
    {
      this.bufs := bufs;
      body := 0;
    }

    ghost predicate Valid()
      reads this
    {
      && ValidChain(bufs)
      && body <= |bufs|
      && forall i :: 0 <= i < body ==> bufs[i].Window() == []
    }

    ghost function Left(): seq<Byte>
      requires Valid()
      reads this
    {
      Body(bufs)
    }

    /** One step of preparing a segment: skips empty buffers, then cuts a window of up to
        `want` bytes off the first non-empty one. `ok` is false only on "early end". */
    method TakeNext(want: nat) returns (window: seq<Byte>, ok: bool)
      requires Valid() && 0 < want
      modifies this
      ensures Valid() && |bufs| == old(|bufs|)
      ensures ok <==> old(Left()) != []
      ensures ok ==> 0 < |window| <= want && old(Left()) == window + Left()
      ensures !ok ==> bufs == old(bufs)
    {
      window, ok := [], true;
      while body < |bufs| && bufs[body].Size() == 0
        invariant bufs == old(bufs) && Valid()
        decreases |bufs| - body
      {
        body := body + 1;
      }
      if body == |bufs| {
        NothingLeft(bufs);
        ok := false;
        return;
      }
      var n := Min(bufs[body].Size(), want);
      TakeFrom(bufs, body, n);
      window := bufs[body].Window()[..n];
      bufs := bufs[body := bufs[body].Advance(n)];
    }

    /** Moves `size` bytes from the front of the body into a fresh chain of windows. */
    method PrepareSegmentData(size: nat) returns (data: seq<seq<Byte>>, ok: bool)
      requires Valid()
      modifies this
      ensures Valid() && |bufs| == old(|bufs|)
      ensures ok <==> size <= |old(Left())|
      ensures ok ==> |Flatten(data)| == size && old(Left()) == Flatten(data) + Left()
    {
      data, ok := [], true;
      var leftSize := size;
      while leftSize > 0
        invariant Valid() && |bufs| == old(|bufs|) && 0 <= leftSize <= size
        invariant |Flatten(data)| == size - leftSize
        invariant old(Left()) == Flatten(data) + Left()
        decreases leftSize
      {
        var window;
        window, ok := TakeNext(leftSize);
        if !ok {
          return;
        }
        FlattenSnoc(data, window);
        JoinLeft(Flatten(data), window, Left());
        data := data + [window];
        leftSize := leftSize - |window|;
      }
    }

    /** Fills in the segment that starts where the body stands. */
    method CutSegment(ghost content: seq<Byte>, ghost k: nat, dataSize: nat, offset: int)
      returns (s: WriteSegment)
      requires Valid() && k < SegmentCount(|content|)
      requires Left() == AfterFragments(content, k) && dataSize == |Left()|
      modifies this
      ensures Valid() && Left() == AfterFragments(content, k + 1)
      ensures k * MAX_FRAGMENT_SIZE < |content| && Flatten(s.data) == Fragment(content, k)
      ensures s.info.size == s.operSize == |Fragment(content, k)| && s.info.offset == offset
      ensures |Left()| == dataSize - s.info.size
    {
      var size := Min(dataSize, MAX_FRAGMENT_SIZE);
      ghost var before := Left();
      var data, ok := PrepareSegmentData(size);
      assert ok;
      CutFragment(content, k, Flatten(data), Left());
      s := WriteSegment(SegmentInfo(0, offset, size), size, data);
    }

    /** The loop over the segments. */
    method CutAll(segCount: nat, size: nat, isLarge: bool, version: nat, requestOffset: int)
      returns (segments: seq<WriteSegment>)
      requires Valid() && requestOffset >= APPEND_OFFSET
      requires size == |Left()| && segCount == SegmentCount(size)
      modifies this
      ensures Valid() && Left() == [] && Written(segments, old(Left()), isLarge, version, requestOffset)
    {
      ghost var content := Left();
      segments := [];
      var i, dataSize, offset := 0, size, 0;
      if isLarge {
        offset := 0;
      } else if version == 2 {
        offset := requestOffset;
      }
      assert AfterFragments(content, 0) == content;
      while i < segCount
        invariant 0 <= i <= segCount == SegmentCount(|content|)
        invariant Valid() && Left() == AfterFragments(content, i) && dataSize == |Left()|
        invariant offset == SegmentOffset(i, isLarge, version, requestOffset)
        invariant |segments| == i && WrittenSoFar(segments, content, isLarge, version, requestOffset)
      {
        var s := CutSegment(content, i, dataSize, offset);
        WrittenMore(segments, s, content, isLarge, version, requestOffset);
        OffsetStep(i, isLarge, version, requestOffset);
        offset := NextOffset(offset, isLarge, version);
        dataSize := dataSize - s.info.size;
        segments := segments + [s];
        i := i + 1;
      }
      NothingAfterAll(content);
    }

    /** ngx_http_tfs_get_segment_for_write. The "early end" error cannot happen: the only
        failure is a missing body. The body is consumed completely. */
    method GetSegmentForWrite(isLarge: bool, version: nat, requestOffset: int) returns (r: WriteResult)
      requires Valid()
      requires requestOffset >= APPEND_OFFSET
      modifies this
      ensures r.WriteError? <==> old(bufs) == []
      ensures r.WriteOk? ==> Written(r.segments, old(Left()), isLarge, version, requestOffset)
      ensures r.WriteOk? ==> Flatten(Datas(r.segments)) == old(Left())
      ensures r.WriteOk? && isLarge ==> EndToEnd(r.segments, 0)
      ensures r.WriteOk? && !isLarge && version == 2 ==>
                if requestOffset == -1 then AllAt(r.segments, -1) else EndToEnd(r.segments, requestOffset)
      ensures r.WriteOk? && !isLarge && version != 2 ==> AllAt(r.segments, 0)
      ensures Valid() && Left() == []
    {
      if bufs == [] {
        return WriteError;
      }
      var dataSize := ChainSize(bufs);
      var segCount := SegmentCount(dataSize);
      var segments := CutAll(segCount, dataSize, isLarge, version, requestOffset);
      WrittenOffsets(segments, old(Left()), isLarge, version, requestOffset);
      WrittenBytes(segments, old(Left()), isLarge, version, requestOffset);
      return WriteOk(segments);
    }
  }
}
