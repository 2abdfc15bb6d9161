/** Small shared vocabulary: optional values, bytes and sequence helpers. */
module Common {

  datatype Option<+T> = None | Some(value: T)

  type byte = bv8

  /** The elements of an optional value, as the decoder loops push them. */
  function Elements<T>(o: Option<T>): seq<T> {
    match o
    case None => []
    case Some(v) => [v]
  }

  predicate EndsWith<T(==)>(whole: seq<T>, suffix: seq<T>) {
    |suffix| <= |whole| && whole[|whole| - |suffix|..] == suffix
  }

  predicate Distinct<T(==)>(s: seq<T>) {
    forall i, j :: 0 <= i < j < |s| ==> s[i] != s[j]
  }

  /** The naturals below n. */
  function Below(n: nat): (s: set<nat>)
    ensures |s| == n && forall i: nat :: i in s <==> i < n
  {
    if n == 0 then {} else Below(n - 1) + {n - 1}
  }

  lemma SubsetSize(a: set<nat>, b: set<nat>)
    requires a <= b
    ensures |a| <= |b|
  {
    assert b == a + (b - a);
  }

  function Flatten<T>(parts: seq<seq<T>>): seq<T> {
    if parts == [] then [] else parts[0] + Flatten(parts[1..])
  }

  /** The low 24 bits of a word, big-endian, as the frame builders lay out addresses and parity. */
  function Bytes24(p: bv32): (f: seq<byte>)
    ensures |f| == 3
  {
    [((p >> 16) & 0xff) as bv8, ((p >> 8) & 0xff) as bv8, (p & 0xff) as bv8]
  }

  function Be24(b: seq<byte>): bv32
    requires |b| >= 3
  {
    Join24(b[0], b[1], b[2])
  }

  function Join24(x: byte, y: byte, z: byte): bv32 {
    ((x as bv32) << 16) | ((y as bv32) << 8) | (z as bv32)
  }

  lemma Join24Bytes(p: bv32)
    ensures Join24(((p >> 16) & 0xff) as bv8, ((p >> 8) & 0xff) as bv8, (p & 0xff) as bv8) == p & 0xFF_FFFF
  {
  }

  lemma Be24OfBytes24(p: bv32)
    ensures Be24(Bytes24(p)) == p & 0xFF_FFFF
  {
    Join24Bytes(p);
  }
}
