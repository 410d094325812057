/** What the models share: bytes, optional values, and the concatenation of a sequence of
    sequences, through which buffer chains, network chunks and stored fragments are all
    read. */
module Sequences {

  type Byte = b: int | 0 <= b < 256

  function Min(a: int, b: int): int {
    if a <= b then a else b
  }

  function Max(a: int, b: int): int {
    if a >= b then a else b
  }

  datatype Option<T> = None | Some(value: T)

  lemma JoinLeft<T>(a: seq<T>, b: seq<T>, c: seq<T>)
    ensures a + (b + c) == (a + b) + c
  {
  }

  function Flatten<T>(ss: seq<seq<T>>): seq<T> {
    if ss == [] then [] else ss[0] + Flatten(ss[1..])
  }

  lemma {:induction false} FlattenConcat<T>(a: seq<seq<T>>, b: seq<seq<T>>)
    ensures Flatten(a + b) == Flatten(a) + Flatten(b)
  {
    if a == [] {
      assert a + b == b;
    } else {
      assert (a + b)[1..] == a[1..] + b;
      FlattenConcat(a[1..], b);
    }
  }

  lemma FlattenSnoc<T>(a: seq<seq<T>>, x: seq<T>)
    ensures Flatten(a + [x]) == Flatten(a) + x
  {
    FlattenConcat(a, [x]);
  }

  /** The whole, around item `i`. */
  lemma FlattenNext<T>(ss: seq<seq<T>>, i: nat) returns (later: seq<T>)
    requires i < |ss|
    ensures Flatten(ss[..i + 1]) == Flatten(ss[..i]) + ss[i]
    ensures Flatten(ss) == Flatten(ss[..i]) + ss[i] + later
  {
    assert ss[..i + 1] == ss[..i] + [ss[i]] && ss == ss[..i + 1] + ss[i + 1..];
    FlattenSnoc(ss[..i], ss[i]);
    FlattenConcat(ss[..i + 1], ss[i + 1..]);
    later := Flatten(ss[i + 1..]);
  }

  lemma {:induction false} FlattenEmpties<T>(ss: seq<seq<T>>)
    requires forall i :: 0 <= i < |ss| ==> ss[i] == []
    ensures Flatten(ss) == []
  {
    if ss != [] {
      FlattenEmpties(ss[1..]);
    }
  }

  /** When everything before item `j` is empty, taking `k` elements off item `j`
      takes `k` elements off the whole. */
  lemma FlattenDrop<T>(ss: seq<seq<T>>, j: nat, k: nat)
    requires j < |ss| && k <= |ss[j]|
    requires forall i :: 0 <= i < j ==> ss[i] == []
    ensures k <= |Flatten(ss)|
    ensures Flatten(ss)[..k] == ss[j][..k]
    ensures Flatten(ss[j := ss[j][k..]]) == Flatten(ss)[k..]
  {
    var tt := ss[j := ss[j][k..]];
    assert ss == ss[..j] + ([ss[j]] + ss[j + 1..]);
    assert tt == ss[..j] + ([ss[j][k..]] + ss[j + 1..]);
    FlattenConcat(ss[..j], [ss[j]] + ss[j + 1..]);
    FlattenConcat(ss[..j], [ss[j][k..]] + ss[j + 1..]);
    FlattenEmpties(ss[..j]);
    assert ([ss[j]] + ss[j + 1..])[1..] == ss[j + 1..];
    assert ([ss[j][k..]] + ss[j + 1..])[1..] == ss[j + 1..];
  }

  /** When everything after item `j` is empty, extending item `j` extends the whole. */
  lemma FlattenExtend<T>(ss: seq<seq<T>>, j: nat, x: seq<T>)
    requires j < |ss|
    requires forall i :: j < i < |ss| ==> ss[i] == []
    ensures Flatten(ss[j := ss[j] + x]) == Flatten(ss) + x
  {
    assert ss == ss[..j] + ([ss[j]] + ss[j + 1..]);
    assert ss[j := ss[j] + x] == ss[..j] + ([ss[j] + x] + ss[j + 1..]);
    FlattenConcat(ss[..j], [ss[j]] + ss[j + 1..]);
    FlattenConcat(ss[..j], [ss[j] + x] + ss[j + 1..]);
    FlattenEmpties(ss[j + 1..]);
    assert ([ss[j]] + ss[j + 1..])[1..] == ss[j + 1..];
    assert ([ss[j] + x] + ss[j + 1..])[1..] == ss[j + 1..];
  }
}
