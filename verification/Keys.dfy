/** Record ids, their 16-byte keys and the custom key order
    (src/utils/RepositoryUtils.cpp, src/IDComparator.cpp). */
module Keys {
  import opened Bytes

  datatype ID = ID(timestamp: u64, unique: u64)

  const KEY_SIZE := 16

  /** The key bytes of an id: two native 8-byte words on a little-endian host. */
  function KeyBytes(id: ID): (bs: seq<byte>)
    ensures |bs| == KEY_SIZE
  {
    LittleEndian(id.timestamp, 8) + LittleEndian(id.unique, 8)
  }

  /** DeserializeID: the first two words of a slice. */
  function DeserializeID(slice: seq<byte>): ID
    requires |slice| >= KEY_SIZE
  {
    WordFits(slice[..8]);
    WordFits(slice[8..16]);
    ID(FromLittleEndian(slice[..8]), FromLittleEndian(slice[8..16]))
  }

  lemma WordFits(word: seq<byte>)
    requires |word| == 8
    ensures FromLittleEndian(word) < TWO64
  {
    LittleEndianEncodes(word);
    WordSizes();
  }

  /** The bytes of a key: first the timestamp, then the number, low bytes first. */
  lemma KeyLayout(id: ID, i: nat)
    requires i < 8
    ensures KeyBytes(id)[i] == id.timestamp / Pow256(i) % 256
    ensures KeyBytes(id)[8 + i] == id.unique / Pow256(i) % 256
  {
    LittleEndianDigit(id.timestamp, 8, i);
    LittleEndianDigit(id.unique, 8, i);
  }

  lemma KeyRoundTrip(id: ID)
    ensures DeserializeID(KeyBytes(id)) == id
  {
    WordSizes();
    LittleEndianDecodes(id.timestamp, 8);
    LittleEndianDecodes(id.unique, 8);
    assert KeyBytes(id)[..8] == LittleEndian(id.timestamp, 8);
    assert KeyBytes(id)[8..16] == LittleEndian(id.unique, 8);
  }

  lemma SliceRoundTrip(slice: seq<byte>)
    requires |slice| == KEY_SIZE
    ensures KeyBytes(DeserializeID(slice)) == slice
  {
    LittleEndianEncodes(slice[..8]);
    LittleEndianEncodes(slice[8..16]);
    assert slice == slice[..8] + slice[8..16];
  }

  /** memcpy into the caller's buffer. */
  method CopyBytes(dst: array<byte>, at: nat, src: seq<byte>)
    requires at + |src| <= dst.Length
    modifies dst
    ensures dst[at..at + |src|] == src
    ensures forall i :: 0 <= i < dst.Length && !(at <= i < at + |src|) ==> dst[i] == old(dst[i])
  {
    var k := 0;
    while k < |src|
      invariant k <= |src|
      invariant forall i :: 0 <= i < k ==> dst[at + i] == src[i]
      invariant forall i :: 0 <= i < dst.Length && !(at <= i < at + k) ==> dst[i] == old(dst[i])
    {
      dst[at + k] := src[k];
      k := k + 1;
    }
  }

  /** SerializeID: writes the 16 key bytes at `at` and nothing else. */
  method SerializeID(id: ID, bytes: array<byte>, at: nat)
    requires at + KEY_SIZE <= bytes.Length
    modifies bytes
    ensures bytes[at..at + KEY_SIZE] == KeyBytes(id)
    ensures DeserializeID(bytes[at..at + KEY_SIZE]) == id
    ensures bytes[..at] == old(bytes[..at])
    ensures bytes[at + KEY_SIZE..] == old(bytes[at + KEY_SIZE..])
  {
    CopyBytes(bytes, at, LittleEndian(id.timestamp, 8));
    label half:
    assert bytes[at..at + 8] == LittleEndian(id.timestamp, 8);
    CopyBytes(bytes, at + 8, LittleEndian(id.unique, 8));
    assert bytes[at..at + 8] == old@half(bytes[at..at + 8]);
    assert bytes[at..at + 16] == bytes[at..at + 8] + bytes[at + 8..at + 16];
    KeyRoundTrip(id);
  }

  function CompareByTs(first: ID, second: ID): int {
    // timestamp 0 marks a probe that is compared by number only
    if first.timestamp == 0 || second.timestamp == 0 then 0
    else if first.timestamp < second.timestamp then -1
    else if first.timestamp > second.timestamp then 1
    else 0
  }

  function CompareByUnique(first: ID, second: ID): int {
    if first.unique < second.unique then -1
    else if first.unique > second.unique then 1
    else 0
  }

  function CompareIDs(k1: ID, k2: ID): int {
    var result := CompareByTs(k1, k2);
    if result == 0 then CompareByUnique(k1, k2) else result
  }

  function Compare(a: seq<byte>, b: seq<byte>): int
    requires |a| >= KEY_SIZE && |b| >= KEY_SIZE
  {
    CompareIDs(DeserializeID(a), DeserializeID(b))
  }

  predicate Equal(a: seq<byte>, b: seq<byte>)
    requires |a| >= KEY_SIZE && |b| >= KEY_SIZE
  {
    Compare(a, b) == 0
  }

  /** The reference order: by time, then by number. */
  predicate Earlier(a: ID, b: ID) {
    a.timestamp < b.timestamp || (a.timestamp == b.timestamp && a.unique < b.unique)
  }

  lemma CompareAntisymmetric(a: seq<byte>, b: seq<byte>)
    requires |a| >= KEY_SIZE && |b| >= KEY_SIZE
    ensures Compare(a, b) == -Compare(b, a)
  {
  }

  /** On keys with a timestamp, the comparator on bytes is the reference order and equality on
      bytes: a strict total order. */
  lemma CompareIsTimeOrder(a: seq<byte>, b: seq<byte>)
    requires |a| == |b| == KEY_SIZE
    requires DeserializeID(a).timestamp != 0 && DeserializeID(b).timestamp != 0
    ensures Compare(a, b) < 0 <==> Earlier(DeserializeID(a), DeserializeID(b))
    ensures Compare(a, b) > 0 <==> Earlier(DeserializeID(b), DeserializeID(a))
    ensures Equal(a, b) <==> a == b
  {
    SliceRoundTrip(a);
    SliceRoundTrip(b);
  }

  /** The comparator's sign for all keys: by number if either has no timestamp, else by timestamp and
      then by number. */
  lemma CompareExactly(a: seq<byte>, b: seq<byte>)
    requires |a| >= KEY_SIZE && |b| >= KEY_SIZE
    ensures var k1, k2 := DeserializeID(a), DeserializeID(b);
            Compare(a, b) < 0 <==>
              if k1.timestamp == 0 || k2.timestamp == 0 then k1.unique < k2.unique
              else k1.timestamp < k2.timestamp || (k1.timestamp == k2.timestamp && k1.unique < k2.unique)
    ensures Compare(a, b) > 0 <==> Compare(b, a) < 0
  {
  }

  lemma CompareTransitive(a: seq<byte>, b: seq<byte>, c: seq<byte>)
    requires |a| == |b| == |c| == KEY_SIZE
    requires DeserializeID(a).timestamp != 0 && DeserializeID(b).timestamp != 0 && DeserializeID(c).timestamp != 0
    ensures Compare(a, b) <= 0 && Compare(b, c) <= 0 ==> Compare(a, c) <= 0
    ensures Compare(a, b) <= 0 && Compare(b, c) < 0 ==> Compare(a, c) < 0
  {
  }

  /** For all keys: `Equal` is byte equality, except that a probe without timestamp equals every
      key carrying its number. */
  lemma EqualExactly(a: seq<byte>, b: seq<byte>)
    requires |a| == |b| == KEY_SIZE
    ensures var k1, k2 := DeserializeID(a), DeserializeID(b);
            Equal(a, b) <==> a == b || (k1.unique == k2.unique && (k1.timestamp == 0 || k2.timestamp == 0))
  {
    SliceRoundTrip(a);
    SliceRoundTrip(b);
  }

  /** Over all keys the order is cyclic: (5,10) < (7,3) < (0,5) < (5,10). */
  lemma CompareIsCyclic()
    ensures exists a: seq<byte>, b: seq<byte>, c: seq<byte> ::
              && |a| == |b| == |c| == KEY_SIZE
              && Compare(a, b) < 0 && Compare(b, c) < 0 && Compare(c, a) < 0
  {
    var x, y, z := ID(5, 10), ID(7, 3), ID(0, 5);
    KeyRoundTrip(x);
    KeyRoundTrip(y);
    KeyRoundTrip(z);
    var a, b, c := KeyBytes(x), KeyBytes(y), KeyBytes(z);
    assert Compare(a, b) < 0 && Compare(b, c) < 0 && Compare(c, a) < 0;
  }
}
