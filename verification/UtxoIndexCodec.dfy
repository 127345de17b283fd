/** domain/utxoindex/model.go and domain/utxoindex/serialization.go: script public keys as
    strings of bytes, and lists of hashes as bytes. */
module UtxoIndexCodec {
  import opened Options
  import opened Powers
  import opened Transactions

  // ----- little-endian numbers -----

  function LittleEndian(n: nat, size: nat): (bytes: seq<Byte>)
    ensures |bytes| == size
  {
    if size == 0 then [] else [n % 256] + LittleEndian(n / 256, size - 1)
  }

  function Value(bytes: seq<Byte>): nat {
    if bytes == [] then 0 else bytes[0] + 256 * Value(bytes[1..])
  }

  lemma {:induction false} ValueOfLittleEndian(n: nat, size: nat)
    requires n < Pow256(size)
    ensures Value(LittleEndian(n, size)) == n
    decreases size
  {
    if size > 0 {
      ValueOfLittleEndian(n / 256, size - 1);
      assert LittleEndian(n, size)[1..] == LittleEndian(n / 256, size - 1);
    }
  }

  lemma Lowest(b: Byte, rest: nat)
    ensures (b + 256 * rest) % 256 == b && (b + 256 * rest) / 256 == rest
  {
  }

  lemma {:induction false} LittleEndianOfValue(bytes: seq<Byte>)
    ensures Value(bytes) < Pow256(|bytes|) && LittleEndian(Value(bytes), |bytes|) == bytes
    decreases |bytes|
  {
    if bytes != [] {
      LittleEndianOfValue(bytes[1..]);
      Lowest(bytes[0], Value(bytes[1..]));
      assert bytes == [bytes[0]] + bytes[1..];
    }
  }

  // ----- script public keys -----

  type KeyString = seq<Byte>

  function ConvertScriptPublicKeyToString(key: ScriptPublicKey): (s: KeyString)
    ensures |s| >= 2
  {
    LittleEndian(key.version, 2) + key.script
  }

  /** A string of fewer than two bytes is out of range. */
  function ConvertStringToScriptPublicKey(s: KeyString): ScriptPublicKey
    requires |s| >= 2
  {
    LittleEndianOfValue(s[..2]);
    assert Pow256(2) == 0x1_0000 by { assert Pow256(1) == 256; }
    ScriptPublicKey(s[2..], Value(s[..2]))
  }

  /** The two conversions are inverse to each other. */
  lemma KeyStringRoundTrip(key: ScriptPublicKey, s: KeyString)
    ensures ConvertStringToScriptPublicKey(ConvertScriptPublicKeyToString(key)) == key
    ensures |s| >= 2 ==> ConvertScriptPublicKeyToString(ConvertStringToScriptPublicKey(s)) == s
  {
    assert Pow256(2) == 0x1_0000 by { assert Pow256(1) == 256; }
    ValueOfLittleEndian(key.version, 2);
    var t := ConvertScriptPublicKeyToString(key);
    assert t[..2] == LittleEndian(key.version, 2) && t[2..] == key.script;
    if |s| >= 2 {
      LittleEndianOfValue(s[..2]);
      assert s == s[..2] + s[2..];
    }
  }

  lemma KeyStringInjective(a: ScriptPublicKey, b: ScriptPublicKey)
    requires ConvertScriptPublicKeyToString(a) == ConvertScriptPublicKeyToString(b)
    ensures a == b
  {
    KeyStringRoundTrip(a, []);
    KeyStringRoundTrip(b, []);
  }

  /** The two bytes of the version, the lower one first, and then the script. */
  lemma KeyStringLayout(key: ScriptPublicKey)
    ensures var s := ConvertScriptPublicKeyToString(key);
      s[0] == key.version % 256 && s[1] == key.version / 256 && s[2..] == key.script
  {
    var s := ConvertScriptPublicKeyToString(key);
    assert LittleEndian(key.version, 2) == [key.version % 256] + LittleEndian(key.version / 256, 1);
    assert LittleEndian(key.version / 256, 1) == [key.version / 256];
  }

  // ----- lists of hashes -----

  const HASHES_LENGTH_SIZE := 8
  const HASH_SIZE := 32

  type Hash = h: seq<Byte> | |h| == 32 witness seq(32, _ => 0)

  function Concatenated(hashes: seq<Hash>): (bytes: seq<Byte>)
    ensures |bytes| == HASH_SIZE * |hashes|
  {
    if hashes == [] then [] else Concatenated(hashes[..|hashes| - 1]) + hashes[|hashes| - 1]
  }

  /** The number of hashes in eight bytes, and the hashes. */
  function Serialized(hashes: seq<Hash>): seq<Byte> {
    LittleEndian(|hashes|, HASHES_LENGTH_SIZE) + Concatenated(hashes)
  }

  /** Deserializing succeeds, reports an unexpected end, or reads past the end of a missing length. */
  datatype Deserialization = Hashes(hashes: seq<Hash>) | UnexpectedEnd | OutOfRange

  function HashAt(bytes: seq<Byte>, i: nat): Hash
    requires HASHES_LENGTH_SIZE + HASH_SIZE * (i + 1) <= |bytes|
  {
    bytes[HASHES_LENGTH_SIZE + HASH_SIZE * i..HASHES_LENGTH_SIZE + HASH_SIZE * (i + 1)]
  }

  /** Bytes beyond the announced hashes are ignored. */
  function Deserialized(bytes: seq<Byte>): Deserialization {
    if |bytes| < HASHES_LENGTH_SIZE then OutOfRange
    else
      var length := Value(bytes[..HASHES_LENGTH_SIZE]);
      if HASHES_LENGTH_SIZE + HASH_SIZE * length > |bytes| then UnexpectedEnd
      else Hashes(seq(length, i requires 0 <= i < length && HASHES_LENGTH_SIZE + HASH_SIZE * length <= |bytes| =>
                        HashAt(bytes, i)))
  }

  lemma {:induction false} ConcatenatedAt(hashes: seq<Hash>, i: nat)
    requires i < |hashes|
    ensures Concatenated(hashes)[HASH_SIZE * i..HASH_SIZE * (i + 1)] == hashes[i]
    decreases |hashes|
  {
    var n := |hashes| - 1;
    if i < n {
      ConcatenatedAt(hashes[..n], i);
    }
  }

  lemma SerializedHash(hashes: seq<Hash>, i: nat)
    requires i < |hashes|
    ensures HashAt(Serialized(hashes), i) == hashes[i]
  {
    ConcatenatedAt(hashes, i);
    assert Serialized(hashes)[HASHES_LENGTH_SIZE..] == Concatenated(hashes);
  }

  lemma WordIsPow()
    ensures Pow256(8) == WORD64
  {
    assert Pow256(4) == 0x1_0000_0000 by { assert Pow256(2) == 0x1_0000; }
    assert Pow256(6) == 0x1_0000_0000_0000;
  }

  /** Deserializing what was serialized gives the hashes again, and only the whole of it does:
      every part of it that is cut off too early is refused. */
  lemma HashesRoundTrip(hashes: seq<Hash>, cut: nat)
    requires |hashes| < WORD64
    ensures Deserialized(Serialized(hashes)) == Hashes(hashes)
    ensures cut < |Serialized(hashes)| ==>
      Deserialized(Serialized(hashes)[..cut]) == if cut < HASHES_LENGTH_SIZE then OutOfRange else UnexpectedEnd
  {
    var bytes := Serialized(hashes);
    WordIsPow();
    ValueOfLittleEndian(|hashes|, HASHES_LENGTH_SIZE);
    assert bytes[..HASHES_LENGTH_SIZE] == LittleEndian(|hashes|, HASHES_LENGTH_SIZE);
    forall i | 0 <= i < |hashes| ensures HashAt(bytes, i) == hashes[i] {
      SerializedHash(hashes, i);
    }
    if HASHES_LENGTH_SIZE <= cut < |bytes| {
      assert bytes[..cut][..HASHES_LENGTH_SIZE] == bytes[..HASHES_LENGTH_SIZE];
    }
  }

  /** The count in eight bytes, the lowest first, and the hashes of 32 bytes each, one after another. */
  lemma SerializedLayout(hashes: seq<Hash>)
    ensures |Serialized(hashes)| == 8 + 32 * |hashes|
    ensures Serialized(hashes)[0] == |hashes| % 256 && Serialized(hashes)[1] == |hashes| / 256 % 256
    ensures forall i :: 0 <= i < |hashes| ==> Serialized(hashes)[8 + 32 * i..8 + 32 * (i + 1)] == hashes[i]
  {
    var bytes := LittleEndian(|hashes|, 8);
    assert bytes == [|hashes| % 256] + LittleEndian(|hashes| / 256, 7);
    assert bytes[1] == LittleEndian(|hashes| / 256, 7)[0];
    forall i | 0 <= i < |hashes| ensures Serialized(hashes)[8 + 32 * i..8 + 32 * (i + 1)] == hashes[i] {
      SerializedHash(hashes, i);
    }
  }

  // ----- the loops -----

  /** A list that fits into the memory of a process, so that its bytes can be counted in 63 bits. */
  predicate Addressable(hashes: seq<Hash>) {
    |hashes| < 0x400_0000_0000_0000
  }

  lemma {:induction false} ConcatenatedMore(hashes: seq<Hash>, i: nat)
    requires i < |hashes|
    ensures Concatenated(hashes[..i + 1]) == Concatenated(hashes[..i]) + hashes[i]
  {
    assert hashes[..i + 1][..i] == hashes[..i];
  }

  method SerializeHashes(hashes: seq<Hash>) returns (bytes: array<Byte>)
    requires Addressable(hashes)
    ensures fresh(bytes) && bytes[..] == Serialized(hashes)
  {
    hide LittleEndian, Concatenated;
    bytes := new Byte[HASHES_LENGTH_SIZE + HASH_SIZE * |hashes|];
    var length := LittleEndian(|hashes|, HASHES_LENGTH_SIZE);
    forall k | 0 <= k < HASHES_LENGTH_SIZE {
      bytes[k] := length[k];
    }
    for i := 0 to |hashes|
      invariant bytes[..HASHES_LENGTH_SIZE + HASH_SIZE * i] == length + Concatenated(hashes[..i])
    {
      var start := HASHES_LENGTH_SIZE + HASH_SIZE * i;
      ghost var before := bytes[..start];
      forall k | 0 <= k < HASH_SIZE {
        bytes[start + k] := hashes[i][k];
      }
      assert bytes[..start] == before;
      assert bytes[start..start + HASH_SIZE] == hashes[i];
      assert bytes[..start + HASH_SIZE] == bytes[..start] + bytes[start..start + HASH_SIZE];
      ConcatenatedMore(hashes, i);
    }
    assert hashes[..|hashes|] == hashes;
  }

  /** Positions are computed in 64 bits; no position that wraps is ever used. */
  method DeserializeHashes(bytes: seq<Byte>) returns (result: Deserialization)
    requires |bytes| < WORD64 / 2
    ensures result == Deserialized(bytes)
  {
    if |bytes| < HASHES_LENGTH_SIZE {
      return OutOfRange;
    }
    var length := Value(bytes[..HASHES_LENGTH_SIZE]);
    var hashes: seq<Hash> := [];
    for i := 0 to length
      invariant |hashes| == i && HASHES_LENGTH_SIZE + HASH_SIZE * i <= |bytes|
      invariant forall k :: 0 <= k < i ==> hashes[k] == HashAt(bytes, k)
    {
      var start := (HASHES_LENGTH_SIZE + HASH_SIZE * i) % WORD64;
      var end := (start + HASH_SIZE) % WORD64;
      if end > |bytes| {
        return UnexpectedEnd;
      }
      hashes := hashes + [bytes[start..end]];
    }
    result := Hashes(hashes);
  }
}
