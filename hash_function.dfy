/**
 * Fiat-Shamir challenges (primitives/hash_function.py).
 *
 * A transcript is a nested list of values.  It is flattened, every value is
 * fed to one SHA-512 object in order, and the digest, read as a number, is
 * reduced modulo the requested bound.  SHA-512 itself is not modelled: the
 * digest is an arbitrary function `H` of the sequence of fed encodings, so
 * every statement below holds for every hash function.
 */
module HashFunction {

  /** A transcript value, classified by how it is encoded for the hash. */
  datatype Value =
    | Exportable(point: int)   // a group element or a Commitment: `export()`
    | Integer(n: int)          // a big number or an int: `hex(element)`
    | Bytes(bytes: seq<int>)   // anything else with `.hex()`

  /** A transcript entry: a value or a (nested) list of entries. */
  datatype Item = Leaf(value: Value) | Nested(items: seq<Item>)

  /** A group element as a transcript entry. */
  function PointItem(e: int): Item
  {
    Leaf(Exportable(e))
  }

  /** What one `m.update(...)` call feeds to the hash. */
  datatype Encoding =
    | Exported(point: int)
    | HexOfInteger(n: int)
    | HexOfBytes(bytes: seq<int>)

  /** The digest of everything fed to one hash object. */
  type Digest = seq<Encoding> -> nat

  predicate IsFlat(lst: seq<Item>)
  {
    forall i :: 0 <= i < |lst| ==> lst[i].Leaf?
  }

  /** Nested lists are spliced in place, left to right. */
  function Flatten(lst: seq<Item>): (r: seq<Item>)
    ensures IsFlat(r)
    ensures |lst| == 0 ==> r == []
    decreases lst
  {
    if |lst| == 0 then []
    else
      var head := match lst[0]
        case Leaf(_) => [lst[0]]
        case Nested(xs) => Flatten(xs);
      head + Flatten(lst[1..])
  }

  /** The encoding chosen by the try/except cascade: `export()` when the value
    * has it, the hexadecimal text of an integer otherwise, `.hex()` last. */
  function Encode(v: Value): (e: Encoding)
    ensures v.Exportable? <==> e.Exported?
    ensures v.Integer? <==> e.HexOfInteger?
  {
    match v
    case Exportable(p) => Exported(p)
    case Integer(n) => HexOfInteger(n)
    case Bytes(b) => HexOfBytes(b)
  }

  /** The encodings of a flat transcript, in order. */
  function EncodeAll(lst: seq<Item>): (r: seq<Encoding>)
    requires IsFlat(lst)
    ensures |r| == |lst|
  {
    seq(|lst|, i requires 0 <= i < |lst| => Encode(lst[i].value))
  }

  /** `compute_challenge(transcript, p)`: the digest of the flattened
    * transcript, reduced modulo p. */
  function Challenge(H: Digest, transcript: seq<Item>, p: int): (c: int)
    requires p > 0
    ensures 0 <= c < p
  {
    H(EncodeAll(Flatten(transcript))) % p
  }

  /** The hashing loop: one hash object absorbs the encodings one by one. */
  method ComputeChallenge(H: Digest, transcript: seq<Item>, p: int) returns (c: int)
    requires p > 0
    ensures c == Challenge(H, transcript, p)
    ensures 0 <= c < p
  {
    var elements := Flatten(transcript);
    var fed: seq<Encoding> := [];   // the state of the SHA-512 object
    var i := 0;
    while i < |elements|
      invariant 0 <= i <= |elements|
      invariant fed == EncodeAll(elements[..i])
    {
      fed := fed + [Encode(elements[i].value)];
      i := i + 1;
      assert elements[..i] == elements[..i - 1] + [elements[i - 1]];
    }
    assert elements[..i] == elements;
    c := H(fed) % p;
  }

  /** Flattening leaves a flat list as it is. */
  lemma {:induction false} FlattenOfFlat(lst: seq<Item>)
    requires IsFlat(lst)
    ensures Flatten(lst) == lst
  {
    if |lst| > 0 {
      assert IsFlat(lst[1..]) by {
        forall i | 0 <= i < |lst[1..]| ensures lst[1..][i].Leaf? {
          assert lst[1..][i] == lst[i + 1];
        }
      }
      FlattenOfFlat(lst[1..]);
      assert lst == [lst[0]] + lst[1..];
    }
  }

  /** Flattening distributes over concatenation. */
  lemma {:induction false} FlattenAppend(a: seq<Item>, b: seq<Item>)
    ensures Flatten(a + b) == Flatten(a) + Flatten(b)
    decreases |a|
  {
    if |a| == 0 {
      assert a + b == b;
    } else {
      assert (a + b)[0] == a[0];
      assert (a + b)[1..] == a[1..] + b;
      FlattenAppend(a[1..], b);
    }
  }

  /** Flattening is idempotent. */
  lemma {:induction false} FlattenIdempotent(lst: seq<Item>)
    ensures Flatten(Flatten(lst)) == Flatten(lst)
  {
    FlattenOfFlat(Flatten(lst));
  }

  /** Only the leaves and their order matter to the challenge: a transcript
    * and its flattening give the same challenge. */
  lemma {:induction false} ChallengeIgnoresNesting(H: Digest, transcript: seq<Item>, p: int)
    requires p > 0
    ensures Challenge(H, Flatten(transcript), p) == Challenge(H, transcript, p)
  {
    FlattenIdempotent(transcript);
  }

  /** Grouping entries into sub-lists does not change the challenge. */
  lemma {:induction false} ChallengeOfGrouped(H: Digest, a: seq<Item>, b: seq<Item>, p: int)
    requires p > 0
    ensures Challenge(H, [Nested(a)] + b, p) == Challenge(H, a + b, p)
  {
    FlattenAppend(a, b);
    assert ([Nested(a)] + b)[0] == Nested(a);
    assert ([Nested(a)] + b)[1..] == b;
  }
}
