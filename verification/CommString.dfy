/** Splitting a string at a delimiter into a bounded number of fields.

    Models comm_split_string in modules/mod_common/ngx_comm_string.c. */
module CommString {
  import opened Sequences

  /** The fields of `s` from position `start`, where nothing in [start, pos) is a delimiter. */
  function FieldsFrom(s: seq<Byte>, d: Byte, start: nat, pos: nat): (fields: seq<seq<Byte>>)
    requires start <= pos <= |s|
    ensures fields != []
    decreases |s| - pos
  {
    if pos == |s| then [s[start..]]
    else if s[pos] == d then [s[start..pos]] + FieldsFrom(s, d, pos + 1, pos + 1)
    else FieldsFrom(s, d, start, pos + 1)
  }

  /** All fields of a string: what lies between delimiters, always at least one field. */
  function Fields(s: seq<Byte>, d: Byte): seq<seq<Byte>> {
    FieldsFrom(s, d, 0, 0)
  }

  function Join(fields: seq<seq<Byte>>, d: Byte): seq<Byte> {
    if fields == [] then []
    else if |fields| == 1 then fields[0]
    else fields[0] + [d] + Join(fields[1..], d)
  }

  /** Fields hold no other bytes than the string. */
  lemma {:induction false} FieldBytes(s: seq<Byte>, d: Byte, start: nat, pos: nat, c: Byte)
    requires start <= pos <= |s| && c !in s
    ensures forall k :: 0 <= k < |FieldsFrom(s, d, start, pos)| ==> c !in FieldsFrom(s, d, start, pos)[k]
    decreases |s| - pos
  {
    if pos < |s| && s[pos] == d {
      FieldBytes(s, d, pos + 1, pos + 1, c);
    } else if pos < |s| {
      FieldBytes(s, d, start, pos + 1, c);
    }
  }

  // ------------------------------------------------- split and join undo each other

  lemma {:induction false} JoinFieldsFrom(s: seq<Byte>, d: Byte, start: nat, pos: nat)
    requires start <= pos <= |s| && forall k :: start <= k < pos ==> s[k] != d
    ensures Join(FieldsFrom(s, d, start, pos), d) == s[start..]
    ensures forall k :: 0 <= k < |FieldsFrom(s, d, start, pos)| ==> d !in FieldsFrom(s, d, start, pos)[k]
    decreases |s| - pos
  {
    if pos < |s| && s[pos] == d {
      JoinFieldsFrom(s, d, pos + 1, pos + 1);
      assert s[start..] == s[start..pos] + [d] + s[pos + 1..];
    } else if pos < |s| {
      JoinFieldsFrom(s, d, start, pos + 1);
    }
  }

  /** Joining the fields of a string restores it, and no field holds the delimiter. */
  lemma JoinFields(s: seq<Byte>, d: Byte)
    ensures Join(Fields(s, d), d) == s
    ensures forall k :: 0 <= k < |Fields(s, d)| ==> d !in Fields(s, d)[k]
  {
    JoinFieldsFrom(s, d, 0, 0);
  }

  lemma {:induction false} SkipField(s: seq<Byte>, d: Byte, start: nat, pos: nat, end: nat)
    requires start <= pos <= end <= |s| && forall k :: pos <= k < end ==> s[k] != d
    ensures FieldsFrom(s, d, start, pos) == FieldsFrom(s, d, start, end)
    decreases end - pos
  {
    if pos < end {
      SkipField(s, d, start, pos + 1, end);
    }
  }

  lemma SliceShift(s: seq<Byte>, n: nat, i: nat, j: nat)
    requires n <= i <= j <= |s|
    ensures s[i..j] == s[n..][i - n..j - n] && s[i..] == s[n..][i - n..]
  {
    forall k | 0 <= k < |s| - i ensures s[i..][k] == s[n..][i - n..][k] {
    }
    forall k | 0 <= k < j - i ensures s[i..j][k] == s[n..][i - n..j - n][k] {
    }
  }

  lemma {:induction false} ShiftFields(s: seq<Byte>, d: Byte, n: nat, start: nat, pos: nat)
    requires n <= start <= pos <= |s|
    ensures FieldsFrom(s, d, start, pos) == FieldsFrom(s[n..], d, start - n, pos - n)
    decreases |s| - pos
  {
    SliceShift(s, n, start, pos);
    var t := s[n..];
    if pos < |s| && s[pos] == d {
      ShiftFields(s, d, n, pos + 1, pos + 1);
      assert FieldsFrom(s, d, start, pos) == [s[start..pos]] + FieldsFrom(s, d, pos + 1, pos + 1);
      assert FieldsFrom(t, d, start - n, pos - n)
          == [t[start - n..pos - n]] + FieldsFrom(t, d, pos + 1 - n, pos + 1 - n);
    } else if pos < |s| {
      ShiftFields(s, d, n, start, pos + 1);
    }
  }

  /** Splitting joined fields restores them: together with JoinFields a bijection. */
  lemma {:induction false} FieldsJoin(fields: seq<seq<Byte>>, d: Byte)
    requires fields != [] && forall k :: 0 <= k < |fields| ==> d !in fields[k]
    ensures Fields(Join(fields, d), d) == fields
  {
    var s, n := Join(fields, d), |fields[0]|;
    assert forall k :: 0 <= k < n ==> s[k] == fields[0][k];
    SkipField(s, d, 0, 0, n);
    if |fields| > 1 {
      FieldsJoin(fields[1..], d);
      ShiftFields(s, d, n + 1, n + 1, n + 1);
      assert s[0..n] == fields[0] && s[n + 1..] == Join(fields[1..], d);
    } else {
      assert s[0..] == s;
    }
  }

  // ------------------------------------------------- the bounded split

  /** What the bounded split returns: all fields when they are fewer than `outLen`, else the
      first `outLen`; but an empty last field is dropped when it would just fit, and the
      empty string has no field at all. */
  function Bounded(s: seq<Byte>, outLen: nat, d: Byte): seq<seq<Byte>> {
    var all := Fields(s, d);
    if s == [] then []
    else if |all| < outLen then all
    else if |all| == outLen && all[outLen - 1] == [] then all[..outLen - 1]
    else all[..outLen]
  }

  /** The inner loop: one field, and whether a delimiter ended it. */
  method ScanField(input: seq<Byte>, start: nat, terminate: Byte) returns (len: nat, pos: nat, hit: bool)
    requires start < |input|
    ensures start + len <= |input| && (hit <==> start + len < |input|)
    ensures pos == start + len + if hit then 1 else 0
    ensures FieldsFrom(input, terminate, start, start) ==
            [input[start..start + len]] + if hit then FieldsFrom(input, terminate, pos, pos) else []
    ensures !hit ==> 0 < len
  {
    pos, len, hit := start, 0, false;
    while pos < |input|
      invariant start <= pos <= |input| && pos == start + len && !hit
      invariant FieldsFrom(input, terminate, start, start) == FieldsFrom(input, terminate, start, pos)
    {
      if input[pos] == terminate {
        pos := pos + 1;
        hit := true;
        return;
      }
      pos := pos + 1;
      len := len + 1;
    }
    assert input[start..start + len] == input[start..];
  }

  /** How far a split has come: `out` are the first fields, the rest starts at `pos`. */
  ghost predicate Progress(input: seq<Byte>, d: Byte, out: seq<seq<Byte>>, pos: nat, lastEmpty: bool) {
    && pos <= |input|
    && (out == [] ==> pos == 0 && !lastEmpty)
    && (if out == [] || lastEmpty then Fields(input, d) == out + FieldsFrom(input, d, pos, pos)
        else pos == |input| && Fields(input, d) == out && out[|out| - 1] != [])
  }

  lemma SplitEnds(input: seq<Byte>, outLen: nat, d: Byte, out: seq<seq<Byte>>, pos: nat, lastEmpty: bool)
    requires Progress(input, d, out, pos, lastEmpty) && |out| <= outLen
    requires |out| == outLen || pos == |input|
    ensures Bounded(input, outLen, d) == if lastEmpty && |out| < outLen - 1 then out + [[]] else out
  {
    var all := Fields(input, d);
    if pos == |input| { assert input[pos..] == []; }
    if out != [] { assert all[..|out|] == out; }
  }

  /** comm_split_string */
  method SplitString(input: seq<Byte>, outLen: nat, terminate: Byte) returns (out: seq<seq<Byte>>)
    ensures out == Bounded(input, outLen, terminate)
  {
    out := [];
    var pos, lastEmpty := 0, false;
    while |out| < outLen && pos < |input|
      invariant |out| <= outLen && Progress(input, terminate, out, pos, lastEmpty)
      decreases |input| - pos
    {
      var start, len := pos, 0;
      ghost var rest := FieldsFrom(input, terminate, start, start);
      len, pos, lastEmpty := ScanField(input, start, terminate);
      var field := input[start..start + len];
      assert lastEmpty ==> out + rest == (out + [field]) + FieldsFrom(input, terminate, pos, pos);
      out := out + [field];
    }
    SplitEnds(input, outLen, terminate, out, pos, lastEmpty);
    if lastEmpty && |out| < outLen - 1 {
      out := out + [[]];
    }
  }

  /** The split keeps the first fields, as many as there is room for, but for a trailing empty
      one that would be the last to fit. */
  lemma BoundedIs(s: seq<Byte>, outLen: nat, d: Byte)
    ensures Bounded(s, outLen, d) <= Fields(s, d) && (s == [] ==> Bounded(s, outLen, d) == [])
    ensures s != [] ==>
              var n := |Fields(s, d)|;
              |Bounded(s, outLen, d)| == if n == outLen && s[|s| - 1] == d then outLen - 1 else Min(n, outLen)
  {
    LastField(s, d, 0, 0);
  }

  lemma {:induction false} JoinConcat(a: seq<seq<Byte>>, b: seq<seq<Byte>>, d: Byte)
    requires a != [] && b != []
    ensures Join(a + b, d) == Join(a, d) + [d] + Join(b, d)
  {
    if |a| == 1 {
      assert (a + b)[1..] == b;
    } else {
      assert (a + b)[1..] == a[1..] + b;
      JoinConcat(a[1..], b, d);
      JoinLeft(a[0] + [d], Join(a[1..], d), [d] + Join(b, d));
      JoinLeft(Join(a[1..], d), [d], Join(b, d));
      JoinLeft(a[0] + [d] + Join(a[1..], d), [d], Join(b, d));
    }
  }

  /** The last field is empty if and only if the string is, or ends with the delimiter. */
  lemma {:induction false} LastField(s: seq<Byte>, d: Byte, start: nat, pos: nat)
    requires start <= pos <= |s| && forall k :: start <= k < pos ==> s[k] != d
    ensures var f := FieldsFrom(s, d, start, pos);
            f[|f| - 1] == [] <==> start == |s| || s[|s| - 1] == d
    decreases |s| - pos
  {
    if pos < |s| && s[pos] == d {
      LastField(s, d, pos + 1, pos + 1);
      assert FieldsFrom(s, d, start, pos) == [s[start..pos]] + FieldsFrom(s, d, pos + 1, pos + 1);
    } else if pos < |s| {
      LastField(s, d, start, pos + 1);
    }
  }

  /** Fewer fields than there are join to a shorter string. */
  lemma PartJoinsShorter(s: seq<Byte>, d: Byte, n: nat)
    requires n < |Fields(s, d)| && s != []
    ensures |Join(Fields(s, d)[..n], d)| < |s|
  {
    var all := Fields(s, d);
    JoinFields(s, d);
    if n > 0 {
      assert all == all[..n] + all[n..];
      JoinConcat(all[..n], all[n..], d);
    }
  }

  /** What the split returns joins back to the string if and only if there are fewer fields
      than room, or just as many and the string does not end with the delimiter. */
  lemma SplitJoinsIff(s: seq<Byte>, outLen: nat, d: Byte)
    ensures Join(Bounded(s, outLen, d), d) == s <==>
              || s == []
              || |Fields(s, d)| < outLen
              || (|Fields(s, d)| == outLen && s[|s| - 1] != d)
  {
    if s != [] {
      var all := Fields(s, d);
      JoinFields(s, d);
      LastField(s, d, 0, 0);
      if |all| == outLen {
        assert all[..outLen] == all;
        PartJoinsShorter(s, d, outLen - 1);
      } else if |all| > outLen {
        PartJoinsShorter(s, d, outLen);
      }
    }
  }

  /** A caller that is given fewer fields than it has room for has the whole string. */
  lemma ShortSplitJoins(s: seq<Byte>, outLen: nat, d: Byte)
    requires s != [] && |Fields(s, d)| < outLen
    ensures Join(Bounded(s, outLen, d), d) == s
    ensures forall k :: 0 <= k < |Bounded(s, outLen, d)| ==> d !in Bounded(s, outLen, d)[k]
  {
    JoinFields(s, d);
  }

  /** The dropped field: "a/" has two fields, but a split into two returns only one. */
  lemma TrailingEmptyFieldDropped(a: Byte, d: Byte)
    requires a != d
    ensures Fields([a, d], d) == [[a], []] && Bounded([a, d], 2, d) == [[a]] && Bounded([a, d], 3, d) == [[a], []]
  {
    var s := [a, d];
    assert s[2..] == [];
    assert FieldsFrom(s, d, 2, 2) == [[]];
    assert FieldsFrom(s, d, 0, 1) == [s[0..1]] + FieldsFrom(s, d, 2, 2);
    assert s[0..1] == [a];
  }
}
