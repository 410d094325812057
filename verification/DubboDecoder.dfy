/** The incremental frame decoder of the Dubbo protocol and the ping encoder.

    Models modules/mod_dubbo/ngx_dubbo.c (ngx_dubbo_encode_ping_request,
    ngx_dubbo_copy_chain for its one buffer, ngx_dubbo_decode_response) and the byte-order
    macros of modules/mod_dubbo/ngx_dubbo.h. */
module DubboDecoder {
  import opened Sequences

  const HEADER_SIZE: nat := 16
  const TWO63: nat := 0x8000_0000_0000_0000
  const TWO64: nat := 0x1_0000_0000_0000_0000

  // ------------------------------------------------- byte order

  /** The number written in `b`, most significant byte first. */
  function BigEndian(b: seq<Byte>): nat {
    if b == [] then 0 else BigEndian(b[..|b| - 1]) * 256 + b[|b| - 1]
  }

  /** The number a little-endian host loads from `b`. */
  function LittleEndian(b: seq<Byte>): nat {
    if b == [] then 0 else b[0] + 256 * LittleEndian(b[1..])
  }

  function Load(b: seq<Byte>, bigEndianHost: bool): nat {
    if bigEndianHost then BigEndian(b) else LittleEndian(b)
  }

  function Power256(n: nat): nat {
    if n == 0 then 1 else 256 * Power256(n - 1)
  }

  /** An `n`-byte number with its bytes in reverse order: what htonl and ngx_dubbo_swap64 do
      on a little-endian host. */
  function Swap(v: nat, n: nat): nat {
    if n == 0 then 0 else v % 256 * Power256(n - 1) + Swap(v / 256, n - 1)
  }

  /** htonl, ntohl and ngx_dubbo_hton64 of an unsigned number. */
  function Convert(v: nat, n: nat, bigEndianHost: bool): nat {
    if bigEndianHost then v else Swap(v, n)
  }

  lemma {:induction false} BigEndianFront(b: seq<Byte>)
    requires b != []
    ensures BigEndian(b) == b[0] * Power256(|b| - 1) + BigEndian(b[1..])
  {
    if |b| > 1 {
      var n := |b| - 1;
      BigEndianFront(b[..n]);
      assert b[..n][1..] == b[1..][..n - 1];
      assert Power256(n) == 256 * Power256(n - 1);
      Distribute(b[0], Power256(n - 1), BigEndian(b[1..][..n - 1]));
    }
  }

  lemma Distribute(x: nat, p: nat, r: nat)
    ensures (x * p + r) * 256 == x * (256 * p) + r * 256
  {
  }

  /** On either kind of host, loading and converting gives the network-order number. */
  lemma {:induction false} NetworkOrder(b: seq<Byte>, bigEndianHost: bool)
    ensures Convert(Load(b, bigEndianHost), |b|, bigEndianHost) == BigEndian(b)
  {
    if b != [] && !bigEndianHost {
      NetworkOrder(b[1..], false);
      BigEndianFront(b);
      SwapFirst(b[0], LittleEndian(b[1..]), |b|);
    }
  }

  lemma SwapFirst(low: Byte, rest: nat, n: nat)
    requires n > 0
    ensures Swap(low + 256 * rest, n) == low * Power256(n - 1) + Swap(rest, n - 1)
  {
    assert (low + 256 * rest) % 256 == low && (low + 256 * rest) / 256 == rest;
  }

  // ngx_dubbo_swap64 as it is written, on the eight bytes of a 64-bit word.

  function Word64(b7: bv8, b6: bv8, b5: bv8, b4: bv8, b3: bv8, b2: bv8, b1: bv8, b0: bv8): bv64 {
    ((b7 as bv64) << 56) | ((b6 as bv64) << 48) | ((b5 as bv64) << 40) | ((b4 as bv64) << 32)
    | ((b3 as bv64) << 24) | ((b2 as bv64) << 16) | ((b1 as bv64) << 8) | (b0 as bv64)
  }

  function SwapMacro(v: bv64, signed: bool): bv64 {
    (if signed && v & 0x8000000000000000 != 0 then (v >> 56) | 0xffffffffffffff00 else v >> 56)
    | ((v & 0x00ff000000000000) >> 40) | ((v & 0x0000ff0000000000) >> 24) | ((v & 0x000000ff00000000) >> 8)
    | ((v & 0x00000000ff000000) << 8) | ((v & 0x0000000000ff0000) << 24) | ((v & 0x000000000000ff00) << 40)
    | (v << 56)
  }

  /** Of an unsigned word the macro reverses the bytes. */
  lemma SwapMacroReverses(b7: bv8, b6: bv8, b5: bv8, b4: bv8, b3: bv8, b2: bv8, b1: bv8, b0: bv8)
    ensures SwapMacro(Word64(b7, b6, b5, b4, b3, b2, b1, b0), false) == Word64(b0, b1, b2, b3, b4, b5, b6, b7)
  {
  }

  /** Of a signed word it does the same unless the word is negative; then it sets all bytes
      but the lowest, which is the old top byte. */
  lemma SignedSwapMacro(v: bv64)
    ensures v & 0x8000000000000000 == 0 ==> SwapMacro(v, true) == SwapMacro(v, false)
    ensures v & 0x8000000000000000 != 0 ==> SwapMacro(v, true) == 0xffffffffffffff00 | (v >> 56)
  {
  }

  // ------------------------------------------------- frames of a byte stream

  datatype Header = Header(magic0: Byte, magic1: Byte, kind: Byte, status: Byte, reqid: nat, payloadLen: nat)

  datatype Frame = Frame(header: Header, payload: seq<Byte>)

  /** The 16 header bytes, with the numbers in network order. */
  function HeaderOf(b: seq<Byte>): Header
    requires |b| == HEADER_SIZE
  {
    Header(b[0], b[1], b[2], b[3], BigEndian(b[4..12]), BigEndian(b[12..16]))
  }

  function FrameSize(s: seq<Byte>): nat
    requires HEADER_SIZE <= |s|
  {
    HEADER_SIZE + HeaderOf(s[..HEADER_SIZE]).payloadLen
  }

  predicate HasFrame(s: seq<Byte>) {
    HEADER_SIZE <= |s| && FrameSize(s) <= |s|
  }

  function FirstFrame(s: seq<Byte>): Frame
    requires HasFrame(s)
  {
    Frame(HeaderOf(s[..HEADER_SIZE]), s[HEADER_SIZE..FrameSize(s)])
  }

  /** Parsing a whole stream at once: its frames, and the incomplete rest. */
  function Frames(s: seq<Byte>): seq<Frame>
    decreases |s|
  {
    if HasFrame(s) then [FirstFrame(s)] + Frames(s[FrameSize(s)..]) else []
  }

  function Rest(s: seq<Byte>): (r: seq<Byte>)
    ensures !HasFrame(r)
    decreases |s|
  {
    if HasFrame(s) then Rest(s[FrameSize(s)..]) else s
  }

  lemma FirstFrameStable(s: seq<Byte>, t: seq<Byte>)
    requires HasFrame(s)
    ensures HasFrame(s + t) && FirstFrame(s + t) == FirstFrame(s) && FrameSize(s + t) == FrameSize(s)
    ensures (s + t)[FrameSize(s)..] == s[FrameSize(s)..] + t
  {
    assert (s + t)[..HEADER_SIZE] == s[..HEADER_SIZE];
    assert (s + t)[HEADER_SIZE..FrameSize(s)] == s[HEADER_SIZE..FrameSize(s)];
  }

  /** A stream that starts with a header and the whole payload starts with that frame. */
  lemma CompleteFrame(header: seq<Byte>, got: seq<Byte>, left: seq<Byte>, n: nat)
    requires |header| == HEADER_SIZE && n <= |left| && HeaderOf(header).payloadLen == |got| + n
    ensures var s := header + got + left;
            && HasFrame(s) && FirstFrame(s) == Frame(HeaderOf(header), got + left[..n])
            && s[FrameSize(s)..] == left[n..]
  {
    var s := header + got + left;
    assert s[..HEADER_SIZE] == header;
    assert s[HEADER_SIZE..HEADER_SIZE + |got| + n] == got + left[..n];
    assert s[HEADER_SIZE + |got| + n..] == left[n..];
  }

  lemma IncompleteFrame(header: seq<Byte>, got: seq<Byte>)
    requires |header| == HEADER_SIZE && |got| < HeaderOf(header).payloadLen
    ensures !HasFrame(header + got)
  {
    assert (header + got)[..HEADER_SIZE] == header;
  }

  /** A header, part of its payload and more input: a frame, or all of one unfinished frame. */
  lemma FrameOrMore(header: seq<Byte>, got: seq<Byte>, left: seq<Byte>)
    requires |header| == HEADER_SIZE && |got| <= HeaderOf(header).payloadLen
    ensures var s, n := header + got + left, HeaderOf(header).payloadLen - |got|;
            if n <= |left| then
              HasFrame(s) && FirstFrame(s) == Frame(HeaderOf(header), got + left[..n]) && s[FrameSize(s)..] == left[n..]
            else !HasFrame(s) && s == header + (got + left)
  {
    var n := HeaderOf(header).payloadLen - |got|;
    if n <= |left| {
      CompleteFrame(header, got, left, n);
    } else {
      assert header + got + left == header + (got + left);
      IncompleteFrame(header, got + left);
    }
  }

  /** Parsing can be interrupted anywhere and resumed from the rest. */
  lemma {:induction false} FramesConcat(s: seq<Byte>, t: seq<Byte>)
    ensures Frames(s + t) == Frames(s) + Frames(Rest(s) + t)
    ensures Rest(s + t) == Rest(Rest(s) + t)
    decreases |s|
  {
    if HasFrame(s) {
      FirstFrameStable(s, t);
      FramesConcat(s[FrameSize(s)..], t);
    }
  }

  /** `frames` were taken off the front of `stream`, leaving `left`. */
  ghost predicate Consumed(stream: seq<Byte>, frames: seq<Frame>, left: seq<Byte>) {
    Frames(stream) == frames + Frames(left) && Rest(stream) == Rest(left)
  }

  lemma ConsumedNone(stream: seq<Byte>)
    ensures Consumed(stream, [], stream)
  {
    assert [] + Frames(stream) == Frames(stream);
  }

  lemma ConsumeFrame(stream: seq<Byte>, frames: seq<Frame>, left: seq<Byte>)
    requires Consumed(stream, frames, left) && HasFrame(left)
    ensures Consumed(stream, frames + [FirstFrame(left)], left[FrameSize(left)..])
  {
    var rest := left[FrameSize(left)..];
    assert frames + ([FirstFrame(left)] + Frames(rest)) == (frames + [FirstFrame(left)]) + Frames(rest);
  }

  lemma ConsumedAll(stream: seq<Byte>, frames: seq<Frame>, left: seq<Byte>)
    requires Consumed(stream, frames, left) && !HasFrame(left)
    ensures frames == Frames(stream) && left == Rest(stream)
  {
  }

  // ------------------------------------------------- the decoder

  datatype ParseState = ReadHeader | ReadPayload

  datatype Rc = Again | Done | Error

  /** The upstream buffer a call reads from. */
  class Buffer {
    const bytes: seq<Byte>
    var pos: nat

    constructor (bytes: seq<Byte>)
      ensures this.bytes == bytes && Valid() && Left() == bytes
    {
      this.bytes, pos := bytes, 0;
    }

    ghost predicate Valid()
      reads this
    {
      pos <= |bytes|
    }

    ghost function Left(): seq<Byte>
      requires Valid()
      reads this
    {
      bytes[pos..]
    }

    /** ngx_dubbo_copy_chain for one buffer that holds enough. */
    method Take(n: nat) returns (taken: seq<Byte>)
      requires Valid() && n <= |Left()|
      modifies this`pos
      ensures Valid() && taken == old(Left())[..n] && Left() == old(Left())[n..]
    {
      taken := bytes[pos..pos + n];
      pos := pos + n;
    }
  }

  /** ngx_dubbo_connection_t, as far as the decoder uses it. `raw` is the header record while
      it fills up; `payload` is the buffer, `payloadAlloc` bytes long. */
  class Decoder {
    const bigEndian: bool
    var state: ParseState
    var remain: nat
    var raw: seq<Byte>
    var reqid: nat
    var payloadLen: nat
    var payload: seq<Byte>
    var hasPayload: bool

    constructor (bigEndian: bool)
      ensures this.bigEndian == bigEndian && Valid() && Pending() == []
    {
      this.bigEndian := bigEndian;
      state, remain := ReadHeader, 0;
      raw := seq(HEADER_SIZE, _ => 0);
      reqid, payloadLen, payload, hasPayload := 0, 0, [], false;
    }

    /** The header record holds 16 bytes; once they are all there its numbers are in host
        order and the payload buffer is large enough for the rest of the payload. */
    ghost predicate Valid()
      reads this
    {
      && |raw| == HEADER_SIZE
      && (state.ReadHeader? ==> remain < HEADER_SIZE)
      && (state.ReadPayload? ==> HeaderRead() && hasPayload && remain < payloadLen <= |payload|)
    }

    ghost predicate HeaderRead()
      reads this
    {
      |raw| == HEADER_SIZE && reqid == HeaderOf(raw).reqid && payloadLen == HeaderOf(raw).payloadLen
    }

    /** The bytes of the frame in progress that were consumed so far. */
    ghost function Pending(): seq<Byte>
      requires Valid()
      reads this
    {
      if state.ReadHeader? then raw[..remain] else raw + payload[..remain]
    }

    ghost function Current(): Frame
      requires |raw| == HEADER_SIZE && payloadLen <= |payload|
      reads this
    {
      Frame(Header(raw[0], raw[1], raw[2], raw[3], reqid, payloadLen), payload[..payloadLen])
    }

    /** The header state: copies what is missing, or what there is. */
    method StepHeader(input: Buffer) returns (again: bool)
      requires Valid() && state.ReadHeader? && input.Valid()
      modifies this, input`pos
      ensures input.Valid() && |raw| == HEADER_SIZE && payload == old(payload) && hasPayload == old(hasPayload)
      ensures again <==> |old(Pending() + input.Left())| < HEADER_SIZE
      ensures again ==> Valid() && Pending() == old(Pending() + input.Left()) && input.Left() == []
      ensures !again ==> state.ReadPayload? && remain == 0 && HeaderRead()
                         && raw + input.Left() == old(Pending() + input.Left())
    {
      ghost var stream := Pending() + input.Left();
      var len := |input.bytes| - input.pos;
      if len + remain >= HEADER_SIZE {
        var missing := input.Take(HEADER_SIZE - remain);
        raw := raw[..remain] + missing;
        assert raw == stream[..HEADER_SIZE];
        remain := 0;
        NetworkOrder(raw[12..16], bigEndian);
        NetworkOrder(raw[4..12], bigEndian);
        payloadLen := Convert(Load(raw[12..16], bigEndian), 4, bigEndian);
        reqid := Convert(Load(raw[4..12], bigEndian), 8, bigEndian);
        state := ReadPayload;
        again := false;
      } else {
        if len > 0 {
          var part := input.Take(len);
          raw := raw[..remain] + part + raw[remain + len..];
          remain := remain + len;
        }
        assert raw[..remain] == stream;
        again := true;
      }
    }

    /** What has been copied of the payload. */
    ghost function Got(): seq<Byte>
      reads this
    {
      if remain == 0 || |payload| < remain then [] else payload[..remain]
    }

    /** Makes room for the payload on the first visit; a buffer that is being filled is
        never replaced. */
    method MakeRoom(canAlloc: bool) returns (ok: bool)
      requires remain == 0 || (hasPayload && payloadLen <= |payload| && remain <= |payload|)
      modifies this`payload, this`hasPayload
      ensures !ok ==> !canAlloc
      ensures ok ==> hasPayload && payloadLen <= |payload| && Got() == old(Got())
    {
      if payloadLen > |payload| || !hasPayload {
        hasPayload, payload := canAlloc, [];
        if !canAlloc {
          return false;
        }
        payload := seq(payloadLen, _ => 0);
      }
      return true;
    }

    /** The payload state once there is room. */
    method CopyPayload(input: Buffer) returns (rc: Rc)
      requires state.ReadPayload? && HeaderRead() && input.Valid() && hasPayload
      requires payloadLen <= |payload| && (remain == 0 || remain < payloadLen)
      modifies this`state, this`remain, this`payload, input`pos
      ensures input.Valid() && Valid() && payloadLen <= |payload| && HeaderRead()
      ensures var got, left := old(Got()), old(input.Left());
              var n := payloadLen - |got|;
              if n <= |left| then
                && rc == Done && state.ReadHeader? && remain == 0
                && payload[..payloadLen] == got + left[..n] && input.Left() == left[n..]
              else rc == Again && state.ReadPayload? && Pending() == raw + (got + left) && input.Left() == []
    {
      var len := |input.bytes| - input.pos;
      if len + remain >= payloadLen {
        var missing := input.Take(payloadLen - remain);
        payload := payload[..remain] + missing + payload[payloadLen..];
        remain, state := 0, ReadHeader;
        rc := Done;
      } else {
        if len > 0 {
          var part := input.Take(len);
          payload := payload[..remain] + part + payload[remain + len..];
          remain := remain + len;
        }
        assert payload[..remain] == old(Got()) + old(input.Left());
        rc := Again;
      }
    }

    /** The payload state: makes room on the first visit, then copies. */
    method StepPayload(input: Buffer, canAlloc: bool) returns (rc: Rc)
      requires state.ReadPayload? && HeaderRead() && input.Valid()
      requires remain == 0 || (hasPayload && remain < payloadLen <= |payload|)
      modifies this, input`pos
      ensures input.Valid()
      ensures rc == Error ==> !canAlloc
      ensures rc != Error ==>
                var stream := old(raw + Got() + input.Left());
                && Valid() && !HasFrame(Pending())
                && if HasFrame(stream) then
                     && rc == Done && Pending() == [] && payloadLen <= |payload|
                     && Current() == FirstFrame(stream) && input.Left() == stream[FrameSize(stream)..]
                   else rc == Again && Pending() == stream && input.Left() == []
    {
      ghost var stream := raw + Got() + input.Left();
      FrameOrMore(raw, Got(), input.Left());
      var ok := MakeRoom(canAlloc);
      if !ok {
        return Error;
      }
      rc := CopyPayload(input);
      assert HasFrame(stream) <==> rc == Done;
      if rc == Done {
        assert Current().header == FirstFrame(stream).header;
        assert Current().payload == FirstFrame(stream).payload;
      }
    }

    /** ngx_dubbo_decode_response: consumes one frame, or everything there is. */
    method DecodeResponse(input: Buffer, canAlloc: bool) returns (rc: Rc)
      requires Valid() && input.Valid() && !HasFrame(Pending())
      modifies this, input`pos
      ensures input.Valid()
      ensures rc == Error ==> !canAlloc
      ensures rc != Error ==>
                var stream := old(Pending() + input.Left());
                && Valid() && !HasFrame(Pending())
                && if HasFrame(stream) then
                     && rc == Done && Pending() == [] && payloadLen <= |payload|
                     && Current() == FirstFrame(stream) && input.Left() == stream[FrameSize(stream)..]
                   else rc == Again && Pending() == stream && input.Left() == []
    {
      ghost var stream := Pending() + input.Left();
      if input.pos == |input.bytes| {
        assert stream == Pending();
        return Again;
      }
      if state.ReadHeader? {
        var again := StepHeader(input);
        if again {
          return Again;
        }
      }
      assert raw + Got() + input.Left() == stream;
      rc := StepPayload(input, canAlloc);
    }

    /** `left` is what is to be decoded: the bytes of the frame in progress, then the input. */
    ghost predicate Ready(input: Buffer, left: seq<Byte>)
      reads this, input
    {
      Valid() && input.Valid() && !HasFrame(Pending()) && left == Pending() + input.Left()
    }

    /** All of `left` is in the frame in progress. */
    ghost predicate Drained(left: seq<Byte>)
      reads this
    {
      Valid() && Pending() == left && !HasFrame(left)
    }

    /** One turn of the caller's loop: takes the next frame, if it is complete. The turn fails
        only for lack of memory for a payload. */
    method Turn(input: Buffer, frames: seq<Frame>, canAlloc: bool, ghost stream: seq<Byte>, ghost left: seq<Byte>)
      returns (rc: Rc, frames': seq<Frame>, ghost rest: seq<Byte>)
      requires Ready(input, left) && Consumed(stream, frames, left)
      modifies this, input`pos
      ensures Consumed(stream, frames', rest) && frames <= frames'
      ensures match rc
              case Done => Ready(input, rest) && |rest| < |left|
              case Again => Drained(rest) && rest == left
              case Error => !canAlloc && rest == left
    {
      rc := DecodeResponse(input, canAlloc);
      if rc == Done {
        var frame := Frame(Header(raw[0], raw[1], raw[2], raw[3], reqid, payloadLen), payload[..payloadLen]);
        ConsumeFrame(stream, frames, left);
        frames', rest := frames + [frame], left[FrameSize(left)..];
        assert [] + input.Left() == rest;
      } else {
        frames', rest := frames, left;
      }
    }

    /** The caller's loop: decode until nothing is left, collecting the frames. There is memory
        for the payloads of the first `memory` frames. */
    method TakeAll(input: Buffer, memory: nat, ghost stream: seq<Byte>) returns (frames: seq<Frame>, ok: bool)
      requires Ready(input, stream)
      modifies this, input`pos
      ensures ok ==> frames == Frames(stream) && Drained(Rest(stream))
      ensures !ok ==> frames <= Frames(stream) && memory <= |frames|
    {
      frames := [];
      ghost var left := stream;
      ConsumedNone(stream);
      var rc := Done;
      while rc == Done
        invariant Consumed(stream, frames, left)
        invariant match rc case Done => Ready(input, left) case Again => Drained(left) case Error => memory <= |frames|
        decreases |left|, rc == Done
      {
        rc, frames, left := Turn(input, frames, |frames| < memory, stream, left);
      }
      ok := rc == Again;
      if ok {
        ConsumedAll(stream, frames, left);
      }
    }

    /** One more buffer arrives. When a payload finds no memory the caller gives up, with the
        frames before it delivered: all that found memory. */
    method Feed(chunk: seq<Byte>, memory: nat) returns (frames: seq<Frame>, ok: bool)
      requires Valid() && !HasFrame(Pending())
      modifies this
      ensures ok ==> Valid() && !HasFrame(Pending())
      ensures ok ==> frames == Frames(old(Pending()) + chunk) && Pending() == Rest(old(Pending()) + chunk)
      ensures !ok ==> frames <= Frames(old(Pending()) + chunk) && memory <= |frames|
    {
      ghost var stream := Pending() + chunk;
      var input := new Buffer(chunk);
      frames, ok := TakeAll(input, memory, stream);
    }

    /** Chunk independence: however a stream is cut into buffers, the frames are those of the
        whole stream; when memory runs out, they are a prefix of them that holds every frame
        for which there was memory. */
    method FeedAll(chunks: seq<seq<Byte>>, memory: nat) returns (frames: seq<Frame>, ok: bool)
      requires Valid() && Pending() == []
      modifies this
      ensures ok ==> Valid() && frames == Frames(Flatten(chunks)) && Pending() == Rest(Flatten(chunks))
      ensures !ok ==> frames <= Frames(Flatten(chunks)) && memory <= |frames|
    {
      frames, ok := [], true;
      ghost var fed: seq<Byte> := [];
      var i := 0;
      while i < |chunks|
        invariant 0 <= i <= |chunks| && Valid() && ok && fed == Flatten(chunks[..i])
        invariant frames == Frames(fed) && Pending() == Rest(fed)
      {
        ghost var later := FlattenNext(chunks, i);
        FedOne(fed, chunks[i], later);
        fed := fed + chunks[i];
        var more;
        more, ok := Feed(chunks[i], if |frames| <= memory then memory - |frames| else 0);
        frames := frames + more;
        if !ok {
          return;
        }
        i := i + 1;
      }
      assert chunks[..i] == chunks;
    }
  }

  /** What the next buffer adds to the frames so far, which are a prefix of all. */
  lemma FedOne(fed: seq<Byte>, chunk: seq<Byte>, later: seq<Byte>)
    ensures Frames(fed + chunk) == Frames(fed) + Frames(Rest(fed) + chunk)
    ensures Rest(fed + chunk) == Rest(Rest(fed) + chunk)
    ensures Frames(fed + chunk) <= Frames(fed + chunk + later)
  {
    FramesConcat(fed, chunk);
    FramesConcat(fed + chunk, later);
  }

  // ------------------------------------------------- the ping encoder

  const MAGIC_VALUE_0: Byte := 0xda
  const MAGIC_VALUE_1: Byte := 0xbb
  const FLAG_REQ_PING_HESSIAN2: Byte := 0xe2
  const DUBBO_NULL: Byte := 0x4e
  const TWO56: nat := 0x100_0000_0000_0000

  /** The bytes of a number in a little-endian host's memory. */
  function ToLittle(v: nat, n: nat): (b: seq<Byte>)
    ensures |b| == n
  {
    if n == 0 then [] else [v % 256] + ToLittle(v / 256, n - 1)
  }

  function ToBig(v: nat, n: nat): (b: seq<Byte>)
    ensures |b| == n
  {
    if n == 0 then [] else ToBig(v / 256, n - 1) + [v % 256]
  }

  function Store(v: nat, n: nat, bigEndianHost: bool): (b: seq<Byte>)
    ensures |b| == n
  {
    if bigEndianHost then ToBig(v, n) else ToLittle(v, n)
  }

  lemma {:induction false} StoreLoad(v: nat, n: nat)
    requires v < Power256(n)
    ensures LittleEndian(ToLittle(v, n)) == v && BigEndian(ToBig(v, n)) == v
  {
    if n != 0 {
      StoreLoad(v / 256, n - 1);
      var l, b := ToLittle(v, n), ToBig(v, n);
      assert l[1..] == ToLittle(v / 256, n - 1) && b[..n - 1] == ToBig(v / 256, n - 1);
    }
  }

  lemma {:induction false} LoadStoreBig(b: seq<Byte>)
    ensures BigEndian(b) < Power256(|b|) && ToBig(BigEndian(b), |b|) == b
  {
    if b != [] {
      var n := |b| - 1;
      LoadStoreBig(b[..n]);
      LastDigit(BigEndian(b[..n]), b[n]);
      assert b == b[..n] + [b[n]];
    }
  }

  // ------------------------------------------------- frames as bytes

  /** A frame on the wire: section by section as the protocol lays it out. */
  function Wire(f: Frame): seq<Byte> {
    [f.header.magic0, f.header.magic1, f.header.kind, f.header.status]
    + ToBig(f.header.reqid, 8) + ToBig(f.header.payloadLen, 4) + f.payload
  }

  predicate FrameOk(f: Frame) {
    f.header.reqid < TWO64 && f.header.payloadLen == |f.payload| < 0x1_0000_0000
  }

  function Wires(fs: seq<Frame>): (ws: seq<seq<Byte>>)
    ensures |ws| == |fs| && forall i :: 0 <= i < |fs| ==> ws[i] == Wire(fs[i])
  {
    seq(|fs|, i requires 0 <= i < |fs| => Wire(fs[i]))
  }

  /** Parsing undoes writing, for one frame with anything behind it. */
  lemma WireParses(f: Frame, rest: seq<Byte>)
    requires FrameOk(f)
    ensures var s := Wire(f) + rest;
            HasFrame(s) && FirstFrame(s) == f && FrameSize(s) == |Wire(f)| && s[FrameSize(s)..] == rest
  {
    var s, h := Wire(f) + rest, f.header;
    Power256Of8();
    StoreLoad(h.reqid, 8);
    StoreLoad(h.payloadLen, 4);
    assert s[..HEADER_SIZE] == [h.magic0, h.magic1, h.kind, h.status] + ToBig(h.reqid, 8) + ToBig(h.payloadLen, 4);
    assert s[..HEADER_SIZE][4..12] == ToBig(h.reqid, 8) && s[..HEADER_SIZE][12..16] == ToBig(h.payloadLen, 4);
    assert s[HEADER_SIZE..HEADER_SIZE + |f.payload|] == f.payload;
  }

  /** For any frames, one after the other. */
  lemma {:induction false} WiresParse(fs: seq<Frame>)
    requires forall i :: 0 <= i < |fs| ==> FrameOk(fs[i])
    ensures Frames(Flatten(Wires(fs))) == fs && Rest(Flatten(Wires(fs))) == []
  {
    if fs != [] {
      assert Wires(fs)[1..] == Wires(fs[1..]);
      WireParses(fs[0], Flatten(Wires(fs[1..])));
      WiresParse(fs[1..]);
    }
  }

  /** Writing undoes parsing: of any stream. */
  lemma {:induction false} StreamIsWires(s: seq<Byte>)
    ensures s == Flatten(Wires(Frames(s))) + Rest(s)
    ensures forall i :: 0 <= i < |Frames(s)| ==> FrameOk(Frames(s)[i])
    decreases |s|
  {
    if HasFrame(s) {
      var f, rest := FirstFrame(s), s[FrameSize(s)..];
      FrameIsWire(s);
      StreamIsWires(rest);
      assert Wires(Frames(s)) == [Wire(f)] + Wires(Frames(rest));
      JoinLeft(Wire(f), Flatten(Wires(Frames(rest))), Rest(rest));
    }
  }

  lemma FrameIsWire(s: seq<Byte>)
    requires HasFrame(s)
    ensures FrameOk(FirstFrame(s)) && s == Wire(FirstFrame(s)) + s[FrameSize(s)..]
  {
    var h := s[..HEADER_SIZE];
    Power256Of8();
    LoadStoreBig(h[4..12]);
    LoadStoreBig(h[12..16]);
    assert h == [h[0], h[1], h[2], h[3]] + h[4..12] + h[12..16];
    assert s == h + s[HEADER_SIZE..FrameSize(s)] + s[FrameSize(s)..];
  }

  lemma {:induction false} SwapBound(v: nat, n: nat)
    ensures Swap(v, n) < Power256(n)
  {
    if n != 0 {
      SwapBound(v / 256, n - 1);
      DigitBound(v % 256, Power256(n - 1), Swap(v / 256, n - 1));
    }
  }

  lemma DigitBound(x: Byte, p: nat, r: nat)
    requires r < p
    ensures x * p + r < 256 * p
  {
    assert (255 - x) * p >= 0;
  }

  /** Storing a swapped number in little-endian memory writes it in network order. */
  lemma {:induction false} StoreSwapped(v: nat, n: nat)
    requires v < Power256(n)
    ensures BigEndian(ToLittle(Swap(v, n), n)) == v
  {
    SwapBound(v, n);
    StoreLoad(Swap(v, n), n);
    NetworkOrder(ToLittle(Swap(v, n), n), false);
    SwapTwice(v, n);
  }

  lemma SwapTwice(v: nat, n: nat)
    requires v < Power256(n)
    ensures Swap(Swap(v, n), n) == v
  {
    var b := ToBig(v, n);
    StoreLoad(v, n);
    SwapIsReverse(v, n);
    NetworkOrder(b, false);
  }

  /** Swapping a number is loading its big-endian bytes the wrong way round. */
  lemma {:induction false} SwapIsReverse(v: nat, n: nat)
    ensures Swap(v, n) == LittleEndian(ToBig(v, n))
  {
    if n != 0 {
      SwapIsReverse(v / 256, n - 1);
      LittleEndianBack(ToBig(v / 256, n - 1), v % 256);
    }
  }

  lemma {:induction false} LittleEndianBack(b: seq<Byte>, x: Byte)
    ensures LittleEndian(b + [x]) == LittleEndian(b) + x * Power256(|b|)
  {
    if b == [] {
      assert b + [x] == [x] && [x][1..] == [];
    } else {
      assert (b + [x])[1..] == b[1..] + [x];
      LittleEndianBack(b[1..], x);
      assert 256 * (x * Power256(|b| - 1)) == x * Power256(|b|);
    }
  }

  lemma Power256Of8()
    ensures Power256(8) == TWO64 && Power256(7) == TWO56 && Power256(4) == 0x1_0000_0000
  {
    assert Power256(1) == 256 && Power256(2) == 0x1_0000 && Power256(3) == 0x100_0000;
    assert Power256(4) == 0x1_0000_0000 && Power256(5) == 0x100_0000_0000;
    assert Power256(6) == 0x1_0000_0000_0000 && Power256(7) == TWO56;
  }

  /** ngx_dubbo_hton64 of the request id, a signed integer given by its 64 bits. */
  function Hton64(id: nat, bigEndianHost: bool): nat {
    if bigEndianHost then id
    else if id < TWO63 then Swap(id, 8)
    else TWO64 - 256 + id / TWO56
  }

  // The arithmetic above is what the macro does to the bytes in memory.

  /** The 64-bit word a little-endian host holds for eight bytes of memory. */
  function WordOf(b: seq<Byte>): bv64
    requires |b| == 8
  {
    Word64(b[7] as bv8, b[6] as bv8, b[5] as bv8, b[4] as bv8, b[3] as bv8, b[2] as bv8, b[1] as bv8, b[0] as bv8)
  }

  function Reversed(b: seq<Byte>): (r: seq<Byte>)
    ensures |r| == |b|
  {
    if b == [] then [] else Reversed(b[1..]) + [b[0]]
  }

  lemma {:induction false} LittleBound(b: seq<Byte>)
    ensures LittleEndian(b) < Power256(|b|)
  {
    if b != [] {
      LittleBound(b[1..]);
    }
  }

  lemma {:induction false} LoadStore(b: seq<Byte>)
    ensures ToLittle(LittleEndian(b), |b|) == b && ToBig(LittleEndian(b), |b|) == Reversed(b)
  {
    if b != [] {
      LoadStore(b[1..]);
      LastDigit(LittleEndian(b[1..]), b[0]);
    }
  }

  /** Swapping the number is reversing its bytes. */
  lemma SwapReverses(b: seq<Byte>)
    ensures ToLittle(Swap(LittleEndian(b), |b|), |b|) == Reversed(b)
  {
    SwapIsReverse(LittleEndian(b), |b|);
    LoadStore(b);
    LoadStore(Reversed(b));
  }

  lemma ReversedOf8(b: seq<Byte>)
    requires |b| == 8
    ensures Reversed(b) == [b[7], b[6], b[5], b[4], b[3], b[2], b[1], b[0]]
  {
    var c := b[4..];
    assert Reversed(b[8..]) == [];
    assert b[7..][1..] == b[8..] && b[6..][1..] == b[7..] && b[5..][1..] == b[6..] && b[4..][1..] == b[5..];
    assert Reversed(b[7..]) == [b[7]] && Reversed(b[6..]) == [b[7], b[6]];
    assert Reversed(b[5..]) == [b[7], b[6], b[5]] && Reversed(c) == [b[7], b[6], b[5], b[4]];
    assert b[3..][1..] == c && b[2..][1..] == b[3..] && b[1..][1..] == b[2..];
    assert Reversed(b[3..]) == [b[7], b[6], b[5], b[4], b[3]];
    assert Reversed(b[2..]) == [b[7], b[6], b[5], b[4], b[3], b[2]];
    assert Reversed(b[1..]) == [b[7], b[6], b[5], b[4], b[3], b[2], b[1]];
  }

  /** Of an unsigned number the macro computes Swap. */
  lemma MacroIsSwap(b: seq<Byte>)
    requires |b| == 8
    ensures SwapMacro(WordOf(b), false) == WordOf(ToLittle(Swap(LittleEndian(b), 8), 8))
  {
    SwapReverses(b);
    ReversedOf8(b);
    SwapMacroReverses(b[7] as bv8, b[6] as bv8, b[5] as bv8, b[4] as bv8,
                      b[3] as bv8, b[2] as bv8, b[1] as bv8, b[0] as bv8);
  }

  lemma SignBit(x: Byte)
    ensures (x as bv8) & 0x80 == 0 <==> x < 128
  {
  }

  lemma SignOfWord(b7: bv8, b6: bv8, b5: bv8, b4: bv8, b3: bv8, b2: bv8, b1: bv8, b0: bv8)
    ensures Word64(b7, b6, b5, b4, b3, b2, b1, b0) & 0x8000000000000000 == 0 <==> b7 & 0x80 == 0
  {
  }

  lemma TopOfWord(b7: bv8, b6: bv8, b5: bv8, b4: bv8, b3: bv8, b2: bv8, b1: bv8, b0: bv8)
    ensures Word64(b7, b6, b5, b4, b3, b2, b1, b0) >> 56 == b7 as bv64
  {
  }

  lemma OnesAbove(b: bv8)
    ensures Word64(0xff, 0xff, 0xff, 0xff, 0xff, 0xff, 0xff, b) == 0xffffffffffffff00 | (b as bv64)
  {
  }

  /** Of a word with the top bit set the signed macro keeps the top byte below ones. */
  lemma NegativeMacro(b7: bv8, b6: bv8, b5: bv8, b4: bv8, b3: bv8, b2: bv8, b1: bv8, b0: bv8)
    requires b7 & 0x80 != 0
    ensures SwapMacro(Word64(b7, b6, b5, b4, b3, b2, b1, b0), true)
         == Word64(0xff, 0xff, 0xff, 0xff, 0xff, 0xff, 0xff, b7)
  {
    SignOfWord(b7, b6, b5, b4, b3, b2, b1, b0);
    TopOfWord(b7, b6, b5, b4, b3, b2, b1, b0);
    OnesAbove(b7);
    SignedSwapMacro(Word64(b7, b6, b5, b4, b3, b2, b1, b0));
  }

  /** The top byte of a number is its quotient by 2^56. */
  lemma TopByte(b: seq<Byte>)
    requires |b| == 8
    ensures LittleEndian(b) / TWO56 == b[7] && LittleEndian(b) < TWO64
    ensures LittleEndian(b) < TWO63 <==> b[7] < 128
  {
    Power256Of8();
    LittleBound(b);
    LittleBound(b[..7]);
    assert b == b[..7] + [b[7]];
    LittleEndianBack(b[..7], b[7]);
  }

  lemma NegativeBytes(top: Byte)
    ensures ToLittle(TWO64 - 256 + top, 8) == [top, 255, 255, 255, 255, 255, 255, 255]
  {
    Power256Of8();
    OnesBytes(7);
    LastDigit(TWO56 - 1, top);
    assert TWO64 - 256 + top == 256 * (TWO56 - 1) + top;
    assert Ones(4) == [255, 255, 255, 255] && Ones(6) == [255, 255] + Ones(4) && Ones(7) == [255] + Ones(6);
  }

  lemma NegativeWord(b: seq<Byte>)
    requires |b| == 8 && b[7] >= 128
    ensures SwapMacro(WordOf(b), true) == WordOf([b[7], 255, 255, 255, 255, 255, 255, 255])
  {
    SignBit(b[7]);
    NegativeMacro(b[7] as bv8, b[6] as bv8, b[5] as bv8, b[4] as bv8,
                  b[3] as bv8, b[2] as bv8, b[1] as bv8, b[0] as bv8);
  }

  lemma PositiveWord(b: seq<Byte>)
    requires |b| == 8 && b[7] < 128
    ensures SwapMacro(WordOf(b), true) == SwapMacro(WordOf(b), false)
  {
    SignBit(b[7]);
    SignOfWord(b[7] as bv8, b[6] as bv8, b[5] as bv8, b[4] as bv8, b[3] as bv8, b[2] as bv8, b[1] as bv8, b[0] as bv8);
    SignedSwapMacro(WordOf(b));
  }

  /** Of a signed number, the request id, the macro computes Hton64. */
  lemma MacroIsHton64(b: seq<Byte>)
    requires |b| == 8
    ensures SwapMacro(WordOf(b), true) == WordOf(ToLittle(Hton64(LittleEndian(b), false), 8))
  {
    TopByte(b);
    if b[7] < 128 {
      PositiveWord(b);
      MacroIsSwap(b);
    } else {
      NegativeWord(b);
      NegativeBytes(b[7]);
    }
  }

  /** The message ngx_dubbo_encode_ping_request builds for a request id. */
  function PingBytes(id: nat, bigEndianHost: bool): seq<Byte> {
    [MAGIC_VALUE_0, MAGIC_VALUE_1, FLAG_REQ_PING_HESSIAN2, 0]
    + Store(Hton64(id, bigEndianHost), 8, bigEndianHost)
    + Store(Convert(1, 4, bigEndianHost), 4, bigEndianHost)
    + [DUBBO_NULL]
  }

  /** A word whose upper seven bytes are all ones reads back, in network order, as the low
      byte followed by ones. */
  lemma OneMoreTimes(x: nat, p: nat)
    ensures x * p + p == (x + 1) * p
  {
  }

  lemma {:induction false} OnesReadBack(top: Byte, n: nat)
    requires 0 < n
    ensures 256 <= Power256(n)
    ensures BigEndian(ToLittle(Power256(n) - 256 + top, n)) == (top + 1) * Power256(n - 1) - 1
  {
    var v := Power256(n) - 256 + top;
    assert Power256(n) == 256 * Power256(n - 1);
    assert 1 <= Power256(n - 1) by { PowerPositive(n - 1); }
    assert v == 256 * (Power256(n - 1) - 1) + top;
    LastDigit(Power256(n - 1) - 1, top);
    var b := ToLittle(v, n);
    assert b[0] == top && b[1..] == ToLittle(Power256(n - 1) - 1, n - 1);
    AllOnes(n - 1);
    BigEndianFront(b);
    OneMoreTimes(top, Power256(n - 1));
  }

  lemma LastDigit(q: nat, x: Byte)
    ensures (256 * q + x) % 256 == x && (256 * q + x) / 256 == q
  {
  }

  lemma {:induction false} PowerPositive(n: nat)
    ensures 1 <= Power256(n)
  {
    if n != 0 { PowerPositive(n - 1); }
  }

  function Ones(n: nat): (b: seq<Byte>)
    ensures |b| == n
  {
    if n == 0 then [] else [255] + Ones(n - 1)
  }

  lemma {:induction false} OnesBytes(n: nat)
    ensures 1 <= Power256(n) && ToLittle(Power256(n) - 1, n) == Ones(n)
  {
    PowerPositive(n);
    if n != 0 {
      OnesBytes(n - 1);
      LastDigit(Power256(n - 1) - 1, 255);
      assert Power256(n) - 1 == 256 * (Power256(n - 1) - 1) + 255;
    }
  }

  lemma {:induction false} OnesBig(n: nat)
    ensures BigEndian(Ones(n)) == Power256(n) - 1
  {
    if n != 0 {
      OnesBig(n - 1);
      BigEndianFront(Ones(n));
      assert Ones(n)[1..] == Ones(n - 1);
    }
  }

  lemma AllOnes(n: nat)
    ensures 1 <= Power256(n) && BigEndian(ToLittle(Power256(n) - 1, n)) == Power256(n) - 1
  {
    OnesBytes(n);
    OnesBig(n);
  }

  /** How the stored id reads back in network order. */
  lemma IdReadsBack(id: nat, bigEndianHost: bool)
    requires id < TWO64
    ensures BigEndian(Store(Hton64(id, bigEndianHost), 8, bigEndianHost)) == id <==>
              (bigEndianHost || id < TWO63 || id % TWO56 == TWO56 - 1)
  {
    Power256Of8();
    if bigEndianHost {
      StoreLoad(id, 8);
    } else if id < TWO63 {
      StoreSwapped(id, 8);
    } else {
      OnesReadBack(id / TWO56, 8);
      assert id == TWO56 * (id / TWO56) + id % TWO56;
    }
  }

  lemma LengthReadsBack(bigEndianHost: bool)
    ensures BigEndian(Store(Convert(1, 4, bigEndianHost), 4, bigEndianHost)) == 1
  {
    Power256Of8();
    StoreLoad(1, 4);
    StoreSwapped(1, 4);
  }

  /** A ping is one frame carrying the null payload, and its request id comes back unchanged
      if and only if the host is big-endian, the id is not negative, or its low seven bytes
      are all ones. */
  lemma PingRoundTrip(id: nat, bigEndianHost: bool)
    requires id < TWO64
    ensures var m := PingBytes(id, bigEndianHost);
            && HasFrame(m) && FrameSize(m) == |m|
            && FirstFrame(m).payload == [DUBBO_NULL] && FirstFrame(m).header.kind == FLAG_REQ_PING_HESSIAN2
            && (FirstFrame(m).header.reqid == id <==> (bigEndianHost || id < TWO63 || id % TWO56 == TWO56 - 1))
  {
    var m := PingBytes(id, bigEndianHost);
    assert m[..HEADER_SIZE][4..12] == Store(Hton64(id, bigEndianHost), 8, bigEndianHost);
    assert m[..HEADER_SIZE][12..16] == Store(Convert(1, 4, bigEndianHost), 4, bigEndianHost);
    IdReadsBack(id, bigEndianHost);
    LengthReadsBack(bigEndianHost);
    assert m[HEADER_SIZE..17] == [DUBBO_NULL];
  }

  /** On a little-endian host the id -2 comes back as another one. */
  lemma NegativeIdLost()
    ensures var m := PingBytes(TWO64 - 2, false);
            HasFrame(m) && FirstFrame(m).header.reqid != TWO64 - 2
  {
    PingRoundTrip(TWO64 - 2, false);
    assert TWO64 - 2 == TWO56 * 255 + (TWO56 - 2);
    assert (TWO64 - 2) % TWO56 == TWO56 - 2;
  }

  /** The encoder's part of the connection: ids count up from 1. */
  class Pinger {
    const bigEndian: bool
    var lastRequestId: nat

    constructor (bigEndian: bool)
      ensures this.bigEndian == bigEndian && lastRequestId == 1
    {
      this.bigEndian, lastRequestId := bigEndian, 1;
    }

    /** ngx_dubbo_encode_ping_request. The signed counter is kept as its 64 bits and wraps
        around; an id that has become negative reaches the peer under PingRoundTrip's
        condition only. */
    method EncodePingRequest() returns (out: seq<Byte>, id: nat)
      requires lastRequestId < TWO64
      modifies this`lastRequestId
      ensures lastRequestId == (old(lastRequestId) + 1) % TWO64 && id == lastRequestId
      ensures HasFrame(out) && FrameSize(out) == |out| && FirstFrame(out).payload == [DUBBO_NULL]
      ensures FirstFrame(out).header.reqid == id <==> (bigEndian || id < TWO63 || id % TWO56 == TWO56 - 1)
      ensures FirstFrame(out).header.magic0 == 0xda && FirstFrame(out).header.magic1 == 0xbb
      ensures FirstFrame(out).header.kind == 0xe2 && FirstFrame(out).header.status == 0
    {
      out := [MAGIC_VALUE_0, MAGIC_VALUE_1, FLAG_REQ_PING_HESSIAN2, 0];
      lastRequestId := (lastRequestId + 1) % TWO64;
      id := lastRequestId;
      out := out + Store(Hton64(id, bigEndian), 8, bigEndian);
      out := out + Store(Convert(1, 4, bigEndian), 4, bigEndian);
      out := out + [DUBBO_NULL];
      PingRoundTrip(id, bigEndian);
    }
  }
}
