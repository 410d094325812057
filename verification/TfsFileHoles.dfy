/** Finding the holes of a custom TFS file inside a requested range.

    Models ngx_http_tfs_check_file_hole in
    modules/ngx_http_tfs_module/ngx_http_tfs_data_server_message.c. */
module TfsFileHoles {
  import opened Sequences

  /** A stored fragment: where it lies in the file and how much of it is asked for. */
  datatype Segment = Segment(offset: int, operSize: nat)

  datatype Hole = Hole(offset: int, length: nat)

  /** A stretch [lo, hi) of the range: a hole, or the part one fragment answers. */
  datatype Part = Gap(lo: int, hi: int) | Data(lo: int, hi: int)

  function GapBefore(s: Segment, at: int, left: nat): (gap: nat)
    ensures gap <= left
  {
    if s.offset <= at then 0
    else if left <= s.offset - at then left
    else s.offset - at
  }

  /** The range is used up by the gap before `s` or by `s` itself. */
  predicate Ends(s: Segment, at: int, left: nat) {
    (at < s.offset && GapBefore(s, at, left) == left) || s.operSize == left - GapBefore(s, at, left)
  }

  /** Where the walk stands after fragment `s`, if that does not end it. */
  function Past(s: Segment, at: int, left: nat): int {
    at + GapBefore(s, at, left) + s.operSize
  }

  /** From fragment `i` on, no fragment that is reached asks for more than what is left of the
      range. */
  predicate Fits(segments: seq<Segment>, i: nat, at: int, left: nat)
    decreases |segments| - i
  {
    || i >= |segments| || Ends(segments[i], at, left)
    || (var mid := Past(segments[i], at, left);
        mid <= at + left && Fits(segments, i + 1, mid, at + left - mid))
  }

  /** The stretches around one fragment: the hole in front of it, then the fragment. */
  function Head(s: Segment, at: int, left: nat): seq<Part> {
    var gap := GapBefore(s, at, left);
    if at < s.offset && gap == left then [Gap(at, at + gap)]
    else if at < s.offset then [Gap(at, at + gap), Data(at + gap, at + gap + s.operSize)]
    else [Data(at, at + s.operSize)]
  }

  /** The stretches walked through from fragment `i` on, in order. */
  function Cover(segments: seq<Segment>, i: nat, at: int, left: nat): seq<Part>
    requires Fits(segments, i, at, left)
    decreases |segments| - i
  {
    if i >= |segments| then []
    else if Ends(segments[i], at, left) then Head(segments[i], at, left)
    else
      var mid := Past(segments[i], at, left);
      Head(segments[i], at, left) + Cover(segments, i + 1, mid, at + left - mid)
  }

  function EndOf(parts: seq<Part>, at: int): int {
    if parts == [] then at else parts[|parts| - 1].hi
  }

  /** The whole walk: what is left after the last fragment is a hole, unless more fragments
      are still to come. */
  function Partition(segments: seq<Segment>, at: int, left: nat, stillHave: bool): seq<Part>
    requires Fits(segments, 0, at, left)
  {
    var parts := Cover(segments, 0, at, left);
    var end := EndOf(parts, at);
    if !stillHave && end < at + left then parts + [Gap(end, at + left)] else parts
  }

  function Gaps(parts: seq<Part>): seq<Hole> {
    if parts == [] then []
    else if parts[0].Gap? && parts[0].lo <= parts[0].hi then
      [Hole(parts[0].lo, parts[0].hi - parts[0].lo)] + Gaps(parts[1..])
    else Gaps(parts[1..])
  }

  /** How many bytes each visited fragment answers. */
  function Answered(parts: seq<Part>): seq<int> {
    if parts == [] then []
    else if parts[0].Data? then [parts[0].hi - parts[0].lo] + Answered(parts[1..])
    else Answered(parts[1..])
  }

  /** The sizes of the fragments from `i` on. */
  function SizesOf(segments: seq<Segment>, i: nat): seq<int>
    decreases |segments| - i
  {
    if i >= |segments| then [] else [segments[i].operSize] + SizesOf(segments, i + 1)
  }

  lemma {:induction false} GapsConcat(a: seq<Part>, b: seq<Part>)
    ensures Gaps(a + b) == Gaps(a) + Gaps(b) && Answered(a + b) == Answered(a) + Answered(b)
  {
    if a == [] {
      assert a + b == b;
    } else {
      assert (a + b)[1..] == a[1..] + b;
      GapsConcat(a[1..], b);
    }
  }

  // ------------------------------------------------- what the walk means

  /** The parts follow each other from `lo` to `hi`. */
  predicate Tiles(parts: seq<Part>, lo: int, hi: int)
  {
    if parts == [] then lo == hi
    else parts[0].lo == lo <= parts[0].hi && Tiles(parts[1..], parts[0].hi, hi)
  }

  lemma {:induction false} TilesConcat(a: seq<Part>, b: seq<Part>, lo: int, mid: int, hi: int)
    requires Tiles(a, lo, mid) && Tiles(b, mid, hi)
    ensures Tiles(a + b, lo, hi)
  {
    if a == [] {
      assert a + b == b;
    } else {
      assert (a + b)[1..] == a[1..] + b;
      TilesConcat(a[1..], b, a[0].hi, mid, hi);
    }
  }

  function Lengths(holes: seq<Hole>): nat {
    if holes == [] then 0 else holes[0].length + Lengths(holes[1..])
  }

  function Sum(ns: seq<int>): int {
    if ns == [] then 0 else ns[0] + Sum(ns[1..])
  }

  /** Holes and answered bytes together measure the tiled stretch, and the holes ascend
      without overlap inside it. */
  lemma {:induction false} TiledGaps(parts: seq<Part>, lo: int, hi: int)
    requires Tiles(parts, lo, hi)
    ensures lo <= hi && Lengths(Gaps(parts)) + Sum(Answered(parts)) == hi - lo
    ensures forall i :: 0 <= i < |Gaps(parts)| ==>
                          lo <= Gaps(parts)[i].offset && Gaps(parts)[i].offset + Gaps(parts)[i].length <= hi
    ensures forall i, j :: 0 <= i < j < |Gaps(parts)| ==>
                             Gaps(parts)[i].offset + Gaps(parts)[i].length <= Gaps(parts)[j].offset
  {
    if parts != [] {
      TiledGaps(parts[1..], parts[0].hi, hi);
    }
  }

  lemma HeadTiles(s: Segment, at: int, left: nat)
    requires Ends(s, at, left) || GapBefore(s, at, left) + s.operSize <= left
    ensures var head := Head(s, at, left);
            && Tiles(head, at, EndOf(head, at))
            && Answered(head) == (if head[|head| - 1].Data? then [s.operSize] else [])
            && Gaps(head) == (if head[0].Gap? then [Hole(at, GapBefore(s, at, left))] else [])
            && EndOf(head, at) == (if Ends(s, at, left) then at + left else Past(s, at, left))
            && (!Ends(s, at, left) ==> head[|head| - 1].Data?)
  {
    var head := Head(s, at, left);
    if |head| == 2 {
      assert head == [head[0]] + [head[1]];
      GapsConcat([head[0]], [head[1]]);
    }
  }

  lemma EndOfConcat(a: seq<Part>, b: seq<Part>, at: int)
    ensures EndOf(a + b, at) == EndOf(b, EndOf(a, at))
  {
  }

  /** The walk tiles the range from its start and stays inside it. */
  lemma {:induction false} CoverTilesRange(segments: seq<Segment>, i: nat, at: int, left: nat)
    requires Fits(segments, i, at, left)
    ensures var parts := Cover(segments, i, at, left);
            Tiles(parts, at, EndOf(parts, at)) && EndOf(parts, at) <= at + left
    decreases |segments| - i
  {
    if i < |segments| {
      var head := Head(segments[i], at, left);
      HeadTiles(segments[i], at, left);
      if !Ends(segments[i], at, left) {
        var mid := Past(segments[i], at, left);
        var rest := Cover(segments, i + 1, mid, at + left - mid);
        CoverTilesRange(segments, i + 1, mid, at + left - mid);
        TilesConcat(head, rest, at, mid, EndOf(rest, mid));
        EndOfConcat(head, rest, at);
      }
    }
  }

  lemma PrefixAfter(x: int, a: seq<int>, b: seq<int>)
    requires a <= b
    ensures [x] + a <= [x] + b && (a == b ==> [x] + a == [x] + b)
  {
  }

  /** The walk answers the fragments in order with their sizes, and leaves some fragment out
      only when the range is used up. */
  lemma {:induction false} CoverAnswers(segments: seq<Segment>, i: nat, at: int, left: nat)
    requires Fits(segments, i, at, left)
    ensures var parts := Cover(segments, i, at, left);
            && Answered(parts) <= SizesOf(segments, i)
            && (EndOf(parts, at) < at + left ==> Answered(parts) == SizesOf(segments, i))
    decreases |segments| - i
  {
    if i < |segments| {
      var head := Head(segments[i], at, left);
      HeadTiles(segments[i], at, left);
      if !Ends(segments[i], at, left) {
        var mid := Past(segments[i], at, left);
        var rest := Cover(segments, i + 1, mid, at + left - mid);
        CoverAnswers(segments, i + 1, mid, at + left - mid);
        GapsConcat(head, rest);
        EndOfConcat(head, rest, at);
        PrefixAfter(segments[i].operSize, Answered(rest), SizesOf(segments, i + 1));
      }
    }
  }

  /** The walk tiles the range from its start, answers the fragments in order with their
      sizes, and leaves some fragment out only when the range is used up. */
  lemma CoverTiles(segments: seq<Segment>, i: nat, at: int, left: nat)
    requires Fits(segments, i, at, left)
    ensures var parts := Cover(segments, i, at, left);
            && Tiles(parts, at, EndOf(parts, at))
            && at <= EndOf(parts, at) <= at + left
            && Answered(parts) <= SizesOf(segments, i)
            && (EndOf(parts, at) < at + left ==> Answered(parts) == SizesOf(segments, i))
  {
    CoverTilesRange(segments, i, at, left);
    CoverAnswers(segments, i, at, left);
    TiledGaps(Cover(segments, i, at, left), at, EndOf(Cover(segments, i, at, left), at));
  }

  /** Every hole stops where a fragment starts or where the range ends. */
  lemma {:induction false} GapsMeetSegments(segments: seq<Segment>, i: nat, at: int, left: nat, n: nat)
    requires Fits(segments, i, at, left) && n < |Cover(segments, i, at, left)|
    requires Cover(segments, i, at, left)[n].Gap?
    ensures var hi := Cover(segments, i, at, left)[n].hi;
            hi == at + left || exists k :: i <= k < |segments| && segments[k].offset == hi
    decreases |segments| - i
  {
    var head := Head(segments[i], at, left);
    var hi := Cover(segments, i, at, left)[n].hi;
    if n < |head| {
      assert hi == at + left || segments[i].offset == hi;
    } else {
      var mid := Past(segments[i], at, left);
      GapsMeetSegments(segments, i + 1, mid, at + left - mid, n - |head|);
    }
  }

  /** The partition theorem: the reported holes ascend and do not overlap, together with the
      visited fragments they make up exactly what was walked, and when no fragments are to
      come that is the whole request. */
  lemma HolesPartitionRange(segments: seq<Segment>, at: int, left: nat, stillHave: bool)
    requires Fits(segments, 0, at, left)
    ensures var parts := Partition(segments, at, left, stillHave);
            var holes, end := Gaps(parts), EndOf(parts, at);
            && Tiles(parts, at, end)
            && at <= end <= at + left
            && (!stillHave ==> end == at + left)
            && Lengths(holes) + Sum(Answered(parts)) == end - at
            && (forall i, j :: 0 <= i < j < |holes| ==> holes[i].offset + holes[i].length <= holes[j].offset)
            && Answered(parts) <= SizesOf(segments, 0)
            && (end < at + left ==> Answered(parts) == SizesOf(segments, 0))
  {
    CoverTiles(segments, 0, at, left);
    var cover := Cover(segments, 0, at, left);
    var mid := EndOf(cover, at);
    if !stillHave && mid < at + left {
      var tail := [Gap(mid, at + left)];
      assert tail[1..] == [];
      TilesConcat(cover, tail, at, mid, at + left);
      GapsConcat(cover, tail);
    }
    var parts := Partition(segments, at, left, stillHave);
    TiledGaps(parts, at, EndOf(parts, at));
  }

  // ------------------------------------------------- the holes are what no fragment covers

  /** Where a fragment begins to count: at its offset, or at the start of the range. */
  function From(s: Segment, at: int): int {
    if s.offset <= at then at else s.offset
  }

  predicate Covers(s: Segment, at: int, x: int) {
    From(s, at) <= x < From(s, at) + s.operSize
  }

  /** Byte `x` belongs to some fragment from `i` on. */
  ghost predicate Covered(segments: seq<Segment>, i: nat, at: int, x: int) {
    exists k :: i <= k < |segments| && Covers(segments[k], at, x)
  }

  /** The fragments from `i` on are in order and do not overlap. */
  ghost predicate Ordered(segments: seq<Segment>, i: nat, at: int) {
    forall j, k :: i <= j < k < |segments| ==> From(segments[j], at) + segments[j].operSize <= segments[k].offset
  }

  /** Byte `x` belongs to some hole. */
  predicate InGap(parts: seq<Part>, x: int) {
    parts != [] && ((parts[0].Gap? && parts[0].lo <= x < parts[0].hi) || InGap(parts[1..], x))
  }

  lemma {:induction false} InGapConcat(a: seq<Part>, b: seq<Part>, x: int)
    ensures InGap(a + b, x) <==> InGap(a, x) || InGap(b, x)
  {
    if a == [] {
      assert a + b == b;
    } else {
      assert (a + b)[1..] == a[1..] + b;
      InGapConcat(a[1..], b, x);
    }
  }

  lemma {:induction false} InGapWithin(parts: seq<Part>, lo: int, hi: int, x: int)
    requires Tiles(parts, lo, hi) && InGap(parts, x)
    ensures lo <= x < hi
  {
    TiledGaps(parts[1..], parts[0].hi, hi);
    if !(parts[0].Gap? && parts[0].lo <= x < parts[0].hi) {
      InGapWithin(parts[1..], parts[0].hi, hi, x);
    }
  }

  /** Around one fragment a byte is in the hole before it if and only if it is not in it. */
  lemma HeadExact(s: Segment, at: int, left: nat, x: int)
    requires at <= x < EndOf(Head(s, at, left), at)
    ensures InGap(Head(s, at, left), x) <==> !Covers(s, at, x)
  {
    var head := Head(s, at, left);
    if |head| == 2 {
      assert head == [head[0]] + [head[1]];
      InGapConcat([head[0]], [head[1]], x);
    }
  }

  /** A byte before the end of fragment `i` is in that fragment or in none from there on. */
  lemma CoveredByFirst(segments: seq<Segment>, i: nat, at: int, left: nat, x: int)
    requires i < |segments| && Ordered(segments, i, at)
    requires Ends(segments[i], at, left) || Past(segments[i], at, left) <= at + left
    requires at <= x < EndOf(Head(segments[i], at, left), at)
    ensures Covered(segments, i, at, x) <==> Covers(segments[i], at, x)
  {
    HeadTiles(segments[i], at, left);
    forall k | i < k < |segments| ensures !Covers(segments[k], at, x) {
      assert From(segments[i], at) + segments[i].operSize <= segments[k].offset;
    }
  }

  /** A byte past fragment `i` is decided by the fragments after it. */
  lemma CoveredByRest(segments: seq<Segment>, i: nat, at: int, left: nat, x: int)
    requires i < |segments| && Ordered(segments, i, at) && !Ends(segments[i], at, left)
    requires Past(segments[i], at, left) <= at + left
    ensures var mid := Past(segments[i], at, left);
            && Ordered(segments, i + 1, mid)
            && (mid <= x ==> (Covered(segments, i, at, x) <==> Covered(segments, i + 1, mid, x)))
  {
    var mid := Past(segments[i], at, left);
    forall k | i < k < |segments| ensures mid <= segments[k].offset && From(segments[k], mid) == From(segments[k], at) {
      assert From(segments[i], at) + segments[i].operSize <= segments[k].offset;
    }
    forall k | i < k < |segments| ensures Covers(segments[k], at, x) <==> Covers(segments[k], mid, x) {
      assert From(segments[k], mid) == From(segments[k], at);
    }
  }

  /** Splitting the walk's holes at the end of fragment `i`. */
  lemma InGapSplits(segments: seq<Segment>, i: nat, at: int, left: nat, x: int)
    requires i < |segments| && Fits(segments, i, at, left) && !Ends(segments[i], at, left)
    ensures var mid := Past(segments[i], at, left);
            && at <= mid <= at + left && mid == EndOf(Head(segments[i], at, left), at)
            && EndOf(Cover(segments, i, at, left), at) == EndOf(Cover(segments, i + 1, mid, at + left - mid), mid)
            && (InGap(Cover(segments, i, at, left), x) <==>
                  if x < mid then InGap(Head(segments[i], at, left), x)
                  else InGap(Cover(segments, i + 1, mid, at + left - mid), x))
  {
    var head, mid := Head(segments[i], at, left), Past(segments[i], at, left);
    var rest := Cover(segments, i + 1, mid, at + left - mid);
    HeadTiles(segments[i], at, left);
    InGapConcat(head, rest, x);
    EndOfConcat(head, rest, at);
    CoverTiles(segments, i + 1, mid, at + left - mid);
    if InGap(rest, x) { InGapWithin(rest, mid, EndOf(rest, mid), x); }
    if InGap(head, x) { InGapWithin(head, at, mid, x); }
  }

  /** For fragments in order, a byte the walk has passed is in a hole if and only if it is in
      no fragment. */
  lemma {:induction false} CoverExact(segments: seq<Segment>, i: nat, at: int, left: nat, x: int)
    requires Fits(segments, i, at, left) && Ordered(segments, i, at)
    requires at <= x < EndOf(Cover(segments, i, at, left), at)
    ensures InGap(Cover(segments, i, at, left), x) <==> !Covered(segments, i, at, x)
    decreases |segments| - i
  {
    if Ends(segments[i], at, left) {
      HeadExact(segments[i], at, left, x);
      CoveredByFirst(segments, i, at, left, x);
    } else {
      var mid := Past(segments[i], at, left);
      InGapSplits(segments, i, at, left, x);
      if x < mid {
        HeadExact(segments[i], at, left, x);
        CoveredByFirst(segments, i, at, left, x);
      } else {
        CoveredByRest(segments, i, at, left, x);
        CoverExact(segments, i + 1, mid, at + left - mid, x);
      }
    }
  }

  /** Past the end of the walk, while the range goes on, there are no fragments. */
  lemma {:induction false} NothingPastTheWalk(segments: seq<Segment>, i: nat, at: int, left: nat, x: int)
    requires Fits(segments, i, at, left) && Ordered(segments, i, at)
    requires EndOf(Cover(segments, i, at, left), at) <= x < at + left
    ensures !Covered(segments, i, at, x)
    decreases |segments| - i
  {
    if i < |segments| {
      HeadTiles(segments[i], at, left);
      if !Ends(segments[i], at, left) {
        var mid := Past(segments[i], at, left);
        InGapSplits(segments, i, at, left, x);
        CoverTiles(segments, i + 1, mid, at + left - mid);
        CoveredByRest(segments, i, at, left, x);
        NothingPastTheWalk(segments, i + 1, mid, at + left - mid, x);
      }
    }
  }

  /** Byte `x` lies in one of the reported holes. */
  ghost predicate InHole(holes: seq<Hole>, x: int) {
    exists k :: 0 <= k < |holes| && holes[k].offset <= x < holes[k].offset + holes[k].length
  }

  lemma {:induction false} HolesOfGaps(parts: seq<Part>, x: int)
    ensures InHole(Gaps(parts), x) <==> InGap(parts, x)
  {
    if parts != [] {
      HolesOfGaps(parts[1..], x);
      if parts[0].Gap? && parts[0].lo <= parts[0].hi {
        InHoleFirst(Hole(parts[0].lo, parts[0].hi - parts[0].lo), Gaps(parts[1..]), x);
      }
    }
  }

  lemma InHoleFirst(h: Hole, rest: seq<Hole>, x: int)
    ensures InHole([h] + rest, x) <==> h.offset <= x < h.offset + h.length || InHole(rest, x)
  {
    var all := [h] + rest;
    assert all[0] == h && forall k :: 0 <= k < |rest| ==> rest[k] == all[k + 1];
  }

  /** The reported holes are exactly the bytes of the walked range that no fragment covers. */
  lemma HolesAreUncovered(segments: seq<Segment>, at: int, left: nat, stillHave: bool, x: int)
    requires Fits(segments, 0, at, left) && Ordered(segments, 0, at)
    requires at <= x < EndOf(Partition(segments, at, left, stillHave), at)
    ensures InHole(Gaps(Partition(segments, at, left, stillHave)), x) <==> !Covered(segments, 0, at, x)
  {
    GapsAreUncovered(segments, at, left, stillHave, x);
    HolesOfGaps(Partition(segments, at, left, stillHave), x);
  }

  /** While more fragments are still to come, a hole is reported only in front of a fragment. */
  lemma {:induction false} GapsPrecede(segments: seq<Segment>, i: nat, at: int, left: nat, x: int)
    requires Fits(segments, i, at, left) && InGap(Cover(segments, i, at, left), x)
    ensures exists k :: i <= k < |segments| && x < segments[k].offset
    decreases |segments| - i
  {
    var head := Head(segments[i], at, left);
    if |head| == 2 {
      InGapConcat([head[0]], [head[1]], x);
      assert head == [head[0]] + [head[1]];
    }
    if !Ends(segments[i], at, left) {
      var mid := Past(segments[i], at, left);
      InGapConcat(head, Cover(segments, i + 1, mid, at + left - mid), x);
      if !InGap(head, x) {
        GapsPrecede(segments, i + 1, mid, at + left - mid, x);
      }
    }
  }

  /** Where the last fragment from `i` on ends, or `at` when there is none. */
  function BehindLast(segments: seq<Segment>, i: nat, at: int): int {
    if i >= |segments| then at
    else From(segments[|segments| - 1], at) + segments[|segments| - 1].operSize
  }

  lemma StopsAtRange(segments: seq<Segment>, i: nat, at: int, left: nat)
    requires i < |segments| && Ends(segments[i], at, left)
    ensures EndOf(Cover(segments, i, at, left), at) == at + left
  {
    HeadTiles(segments[i], at, left);
  }

  /** While more fragments are still to come the walk stops behind the last one, or where the
      range ends. */
  lemma {:induction false} WalkStopsBehind(segments: seq<Segment>, i: nat, at: int, left: nat)
    requires Fits(segments, i, at, left) && Ordered(segments, i, at)
    ensures EndOf(Cover(segments, i, at, left), at) in {at + left, BehindLast(segments, i, at)}
    decreases |segments| - i
  {
    if i < |segments| && Ends(segments[i], at, left) {
      StopsAtRange(segments, i, at, left);
    } else if i < |segments| {
      var mid := Past(segments[i], at, left);
      PastFragment(segments, i, at, left);
      WalkStopsBehind(segments, i + 1, mid, at + left - mid);
      assert BehindLast(segments, i + 1, mid) == BehindLast(segments, i, at);
    }
  }

  /** Where the walk stands behind fragment `i`, and that the fragments after it begin there or
      later. */
  lemma PastFragment(segments: seq<Segment>, i: nat, at: int, left: nat)
    requires i < |segments| && Fits(segments, i, at, left) && Ordered(segments, i, at) && !Ends(segments[i], at, left)
    ensures var mid := Past(segments[i], at, left);
            && mid == From(segments[i], at) + segments[i].operSize && mid <= at + left
            && Ordered(segments, i + 1, mid)
            && EndOf(Cover(segments, i, at, left), at) == EndOf(Cover(segments, i + 1, mid, at + left - mid), mid)
            && forall k :: i < k < |segments| ==> From(segments[k], mid) == From(segments[k], at) == segments[k].offset
  {
    InGapSplits(segments, i, at, left, at);
    CoveredByRest(segments, i, at, left, at);
    forall k | i < k < |segments| ensures Past(segments[i], at, left) <= segments[k].offset {
      assert From(segments[i], at) + segments[i].operSize <= segments[k].offset;
    }
  }

  lemma GapsAreUncovered(segments: seq<Segment>, at: int, left: nat, stillHave: bool, x: int)
    requires Fits(segments, 0, at, left) && Ordered(segments, 0, at)
    requires at <= x < EndOf(Partition(segments, at, left, stillHave), at)
    ensures InGap(Partition(segments, at, left, stillHave), x) <==> !Covered(segments, 0, at, x)
  {
    var cover := Cover(segments, 0, at, left);
    var mid := EndOf(cover, at);
    var tail := [Gap(mid, at + left)];
    CoverTiles(segments, 0, at, left);
    InGapConcat(cover, tail, x);
    assert tail[1..] == [];
    if x < mid {
      CoverExact(segments, 0, at, left, x);
    } else {
      if InGap(cover, x) { InGapWithin(cover, at, mid, x); }
      NothingPastTheWalk(segments, 0, at, left, x);
    }
  }

  // ------------------------------------------------- the code

  /** The loop has walked to `pos` at fragment `i`, with the holes before it in `found`; at the
      end the holes will be `total` and the walk will have come to `reach`. */
  ghost predicate Walked(segments: seq<Segment>, i: nat, found: seq<Hole>, pos: int, rest: nat,
                         total: seq<Hole>, reach: int)
  {
    && Fits(segments, i, pos, rest)
    && total == found + Gaps(Cover(segments, i, pos, rest))
    && reach == EndOf(Cover(segments, i, pos, rest), pos)
  }

  /** A round that uses up the range. */
  lemma WalkStops(segments: seq<Segment>, i: nat, found: seq<Hole>, pos: int, rest: nat, total: seq<Hole>, reach: int)
    requires i < |segments| && Walked(segments, i, found, pos, rest, total, reach) && Ends(segments[i], pos, rest)
    ensures total == found + Gaps(Head(segments[i], pos, rest)) && reach == EndOf(Head(segments[i], pos, rest), pos)
  {
  }

  /** A round that does not. */
  lemma WalkGoesOn(segments: seq<Segment>, i: nat, found: seq<Hole>, pos: int, rest: nat, total: seq<Hole>, reach: int)
    requires i < |segments| && Walked(segments, i, found, pos, rest, total, reach) && !Ends(segments[i], pos, rest)
    ensures var mid := Past(segments[i], pos, rest);
            && mid <= pos + rest && mid == EndOf(Head(segments[i], pos, rest), pos)
            && Walked(segments, i + 1, found + Gaps(Head(segments[i], pos, rest)), mid, pos + rest - mid, total, reach)
  {
    var head, mid := Head(segments[i], pos, rest), Past(segments[i], pos, rest);
    var more := Cover(segments, i + 1, mid, pos + rest - mid);
    HeadTiles(segments[i], pos, rest);
    GapsConcat(head, more);
    EndOfConcat(head, more, pos);
    JoinLeft(found, Gaps(head), Gaps(more));
  }

  lemma LastGap(holes: seq<Hole>, parts: seq<Part>, at: int, left: nat)
    ensures (holes + Gaps(parts)) + [Hole(at, left)] == holes + Gaps(parts + [Gap(at, at + left)])
  {
    var tail := [Gap(at, at + left)];
    GapsConcat(parts, tail);
    assert tail[1..] == [];
    JoinLeft(holes, Gaps(parts), Gaps(tail));
  }

  /** ngx_http_tfs_file_t, as far as the hole check updates it. */
  class File {
    const segments: seq<Segment>
    const stillHave: bool
    var fileOffset: int
    var leftLength: nat

    constructor (segments: seq<Segment>, stillHave: bool, fileOffset: int, leftLength: nat)
      ensures this.segments == segments && this.stillHave == stillHave
      ensures this.fileOffset == fileOffset && this.leftLength == leftLength
    {
      this.segments, this.stillHave := segments, stillHave;
      this.fileOffset, this.leftLength := fileOffset, leftLength;
    }

    /** One round of the loop: the hole before a fragment, then the fragment. */
    method Visit(s: Segment, holes: seq<Hole>) returns (found: seq<Hole>, stop: bool)
      requires Ends(s, fileOffset, leftLength) || Past(s, fileOffset, leftLength) <= fileOffset + leftLength
      modifies this`fileOffset, this`leftLength
      ensures fileOffset + leftLength == old(fileOffset + leftLength)
      ensures stop <==> old(Ends(s, fileOffset, leftLength))
      ensures found == holes + Gaps(Head(s, old(fileOffset), old(leftLength)))
      ensures fileOffset == EndOf(Head(s, old(fileOffset), old(leftLength)), old(fileOffset))
    {
      HeadTiles(s, fileOffset, leftLength);
      found := holes;
      if fileOffset < s.offset {
        var length := if leftLength <= s.offset - fileOffset then leftLength else s.offset - fileOffset;
        found := found + [Hole(fileOffset, length)];
        fileOffset := fileOffset + length;
        leftLength := leftLength - length;
        if leftLength == 0 {
          return found, true;
        }
      }
      fileOffset := fileOffset + s.operSize;
      leftLength := leftLength - s.operSize;
      return found, leftLength == 0;
    }

    /** The loop over the fragments. */
    method VisitAll(holes: seq<Hole>) returns (found: seq<Hole>)
      requires Fits(segments, 0, fileOffset, leftLength)
      modifies this`fileOffset, this`leftLength
      ensures fileOffset + leftLength == old(fileOffset + leftLength)
      ensures found == holes + Gaps(Cover(segments, 0, old(fileOffset), old(leftLength)))
      ensures fileOffset == EndOf(Cover(segments, 0, old(fileOffset), old(leftLength)), old(fileOffset))
    {
      found := holes;
      ghost var parts, end := Cover(segments, 0, fileOffset, leftLength), fileOffset + leftLength;
      ghost var total, reach := holes + Gaps(parts), EndOf(parts, fileOffset);
      var i := 0;
      while i < |segments|
        invariant 0 <= i <= |segments| && fileOffset + leftLength == end
        invariant Walked(segments, i, found, fileOffset, leftLength, total, reach)
      {
        if Ends(segments[i], fileOffset, leftLength) {
          WalkStops(segments, i, found, fileOffset, leftLength, total, reach);
        } else {
          WalkGoesOn(segments, i, found, fileOffset, leftLength, total, reach);
        }
        var stop;
        found, stop := Visit(segments[i], found);
        if stop {
          return;
        }
        i := i + 1;
      }
      assert found + [] == found;
    }

    /** Appends the holes of the range to `holes` and moves the file position past them. */
    method CheckFileHole(holes: seq<Hole>) returns (found: seq<Hole>, done: bool)
      requires Fits(segments, 0, fileOffset, leftLength)
      modifies this`fileOffset, this`leftLength
      ensures fileOffset + leftLength == old(fileOffset + leftLength)
      ensures var parts := Partition(segments, old(fileOffset), old(leftLength), stillHave);
              found == holes + Gaps(parts) && fileOffset == EndOf(parts, old(fileOffset))
      ensures holes == [] && Ordered(segments, 0, old(fileOffset)) ==>
                forall x :: old(fileOffset) <= x < fileOffset ==>
                  (InHole(found, x) <==> !Covered(segments, 0, old(fileOffset), x))
      ensures done <==> !stillHave
      ensures done ==> leftLength == 0
      ensures holes == [] && stillHave ==>
                forall x :: InHole(found, x) ==> exists k :: 0 <= k < |segments| && x < segments[k].offset
      ensures stillHave && 0 < leftLength && Ordered(segments, 0, old(fileOffset)) ==>
                fileOffset == if segments == [] then old(fileOffset)
                              else var s := segments[|segments| - 1];
                                   Max(s.offset, old(fileOffset)) + s.operSize
    {
      found, done := Walk(holes);
      if stillHave {
        Unfinished(holes, found, old(fileOffset), old(leftLength));
      }
      if holes == [] && Ordered(segments, 0, old(fileOffset)) {
        assert found == Gaps(Partition(segments, old(fileOffset), old(leftLength), stillHave));
        forall x | old(fileOffset) <= x < fileOffset
          ensures InHole(found, x) <==> !Covered(segments, 0, old(fileOffset), x)
        {
          HolesAreUncovered(segments, old(fileOffset), old(leftLength), stillHave, x);
        }
      }
    }

    /** What is known when more fragments are still to come. */
    lemma Unfinished(holes: seq<Hole>, found: seq<Hole>, at: int, left: nat)
      requires Fits(segments, 0, at, left) && found == holes + Gaps(Cover(segments, 0, at, left))
      ensures holes == [] ==>
                forall x :: InHole(found, x) ==> exists k :: 0 <= k < |segments| && x < segments[k].offset
      ensures Ordered(segments, 0, at) ==>
                var end := EndOf(Cover(segments, 0, at, left), at);
                || end == at + left
                || end == if segments == [] then at
                          else var s := segments[|segments| - 1]; Max(s.offset, at) + s.operSize
    {
      if holes == [] {
        assert found == Gaps(Cover(segments, 0, at, left));
        forall x | InHole(found, x) ensures exists k :: 0 <= k < |segments| && x < segments[k].offset {
          HolesOfGaps(Cover(segments, 0, at, left), x);
          GapsPrecede(segments, 0, at, left, x);
        }
      }
      if Ordered(segments, 0, at) {
        WalkStopsBehind(segments, 0, at, left);
      }
    }

    /** The walk and the hole behind the last fragment. */
    method Walk(holes: seq<Hole>) returns (found: seq<Hole>, done: bool)
      requires Fits(segments, 0, fileOffset, leftLength)
      modifies this`fileOffset, this`leftLength
      ensures fileOffset + leftLength == old(fileOffset + leftLength)
      ensures var parts := Partition(segments, old(fileOffset), old(leftLength), stillHave);
              found == holes + Gaps(parts) && fileOffset == EndOf(parts, old(fileOffset))
      ensures done <==> !stillHave
      ensures done ==> leftLength == 0
    {
      ghost var parts := Cover(segments, 0, fileOffset, leftLength);
      found := VisitAll(holes);
      done := !stillHave;
      if !stillHave && leftLength > 0 {
        LastGap(holes, parts, fileOffset, leftLength);
        found := found + [Hole(fileOffset, leftLength)];
        fileOffset := fileOffset + leftLength;
        leftLength := 0;
      }
    }
  }
}
