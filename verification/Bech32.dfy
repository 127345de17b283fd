/** util/bech32/bech32.go: encoding a version byte and a payload under a prefix, with a
    checksum, and decoding it. Strings are sequences of bytes. */
module Bech32 {
  import opened BitRegrouping
  import opened Checksums
  import opened Options

  /** The characters that stand for 0 to 31: qpzry9x8 gf2tvdw0 s3jn54kh ce6mua7l. */
  const CHARSET: seq<bv8> := [
    0x71, 0x70, 0x7a, 0x72, 0x79, 0x39, 0x78, 0x38,
    0x67, 0x66, 0x32, 0x74, 0x76, 0x64, 0x77, 0x30,
    0x73, 0x33, 0x6a, 0x6e, 0x35, 0x34, 0x6b, 0x68,
    0x63, 0x65, 0x36, 0x6d, 0x75, 0x61, 0x37, 0x6c]

  const COLON: bv8 := 0x3a
  const CHECKSUM_LENGTH := 8

  // ----- base 32 -----

  /** The first position of `c` in the character set from `i` on. */
  function IndexFrom(c: bv8, i: nat): (index: Option<nat>)
    requires i <= 32
    ensures index.Some? ==> i <= index.value < 32 && CHARSET[index.value] == c
    ensures index.None? ==> forall j :: i <= j < 32 ==> CHARSET[j] != c
    decreases 32 - i
  {
    if i == 32 then None else if CHARSET[i] == c then Some(i) else IndexFrom(c, i + 1)
  }

  function CharOf(symbol: bv8): bv8
    requires symbol < 32
  {
    CHARSET[symbol as int]
  }

  /** A byte of 32 or more makes the whole result empty. */
  function EncodeToBase32(data: seq<bv8>): seq<bv8> {
    if exists k :: 0 <= k < |data| && data[k] >= 32 then []
    else seq(|data|, k requires 0 <= k < |data| && data[k] < 32 => CharOf(data[k]))
  }

  function DecodeFromBase32(s: seq<bv8>): (data: Option<seq<bv8>>)
    ensures data.Some? ==> |data.value| == |s| && AllSymbols(data.value)
  {
    if s == [] then Some([])
    else
      var rest := DecodeFromBase32(s[..|s| - 1]);
      var symbol := SymbolOf(s[|s| - 1]);
      if rest.None? || symbol.None? then None else Some(rest.value + [symbol.value])
  }

  function SymbolOf(c: bv8): (symbol: Option<bv8>)
    ensures symbol.Some? ==> symbol.value < 32
  {
    var index := IndexFrom(c, 0);
    if index.None? then None else Some(index.value as bv8)
  }

  /** The place of a character in the set, read off the other way round. */
  function PlaceOf(c: bv8): nat {
    if c == 0x71 then 0
    else if c == 0x70 then 1
    else if c == 0x7a then 2
    else if c == 0x72 then 3
    else if c == 0x79 then 4
    else if c == 0x39 then 5
    else if c == 0x78 then 6
    else if c == 0x38 then 7
    else if c == 0x67 then 8
    else if c == 0x66 then 9
    else if c == 0x32 then 10
    else if c == 0x74 then 11
    else if c == 0x76 then 12
    else if c == 0x64 then 13
    else if c == 0x77 then 14
    else if c == 0x30 then 15
    else if c == 0x73 then 16
    else if c == 0x33 then 17
    else if c == 0x6a then 18
    else if c == 0x6e then 19
    else if c == 0x35 then 20
    else if c == 0x34 then 21
    else if c == 0x6b then 22
    else if c == 0x68 then 23
    else if c == 0x63 then 24
    else if c == 0x65 then 25
    else if c == 0x36 then 26
    else if c == 0x6d then 27
    else if c == 0x75 then 28
    else if c == 0x61 then 29
    else if c == 0x37 then 30
    else if c == 0x6c then 31
    else 32
  }

  /** A character that is printable, no upper-case letter and no colon. */
  predicate InBody(c: bv8) {
    33 <= c <= 126 && !IsUpper(c) && c != COLON
  }

  lemma CharFirst(i: nat)
    requires 0 <= i < 8
    ensures PlaceOf(CHARSET[i]) == i && InBody(CHARSET[i])
  {
  }

  lemma CharSecond(i: nat)
    requires 8 <= i < 16
    ensures PlaceOf(CHARSET[i]) == i && InBody(CHARSET[i])
  {
  }

  lemma CharThird(i: nat)
    requires 16 <= i < 24
    ensures PlaceOf(CHARSET[i]) == i && InBody(CHARSET[i])
  {
  }

  lemma CharFourth(i: nat)
    requires 24 <= i < 32
    ensures PlaceOf(CHARSET[i]) == i && InBody(CHARSET[i])
  {
  }

  lemma CharFacts(i: nat)
    requires i < 32
    ensures PlaceOf(CHARSET[i]) == i && InBody(CHARSET[i])
  {
    if i < 8 {
      CharFirst(i);
    } else if i < 16 {
      CharSecond(i);
    } else if i < 24 {
      CharThird(i);
    } else {
      CharFourth(i);
    }
  }

  /** Every character of the set is found at its own place. */
  lemma CharIndex(symbol: bv8)
    requires symbol < 32
    ensures IndexFrom(CharOf(symbol), 0) == Some(symbol as int)
  {
    hide PlaceOf, InBody;
    var found := IndexFrom(CharOf(symbol), 0);
    assert found.Some?;
    CharFacts(found.value);
    CharFacts(symbol as int);
  }

  lemma {:induction false} Base32RoundTrip(data: seq<bv8>)
    requires AllSymbols(data)
    ensures |EncodeToBase32(data)| == |data|
    ensures DecodeFromBase32(EncodeToBase32(data)) == Some(data)
    decreases |data|
  {
    hide CharOf, IndexFrom, EncodeToBase32;
    if data == [] {
      EncodeNothing();
    } else {
      var n := |data| - 1;
      Base32RoundTrip(data[..n]);
      EncodeLast(data);
      CharIndex(data[n]);
      assert data == data[..n] + [data[n]];
    }
  }

  lemma CharOfSymbol(c: bv8)
    requires SymbolOf(c).Some?
    ensures CharOf(SymbolOf(c).value) == c
  {
    hide IndexFrom;
    ByteOfIndex(IndexFrom(c, 0).value);
  }

  lemma ByteOfIndex(i: nat)
    requires i < 32
    ensures (i as bv8) as int == i
  {
  }

  lemma {:induction false} Base32Inverse(s: seq<bv8>)
    requires DecodeFromBase32(s).Some?
    ensures EncodeToBase32(DecodeFromBase32(s).value) == s
    decreases |s|
  {
    hide CharOf, SymbolOf, EncodeToBase32;
    if s == [] {
      EncodeNothing();
    } else {
      var n := |s| - 1;
      var data := DecodeFromBase32(s).value;
      Base32Inverse(s[..n]);
      EncodeLast(data);
      CharOfSymbol(s[n]);
      assert data[..n] == DecodeFromBase32(s[..n]).value;
      assert s == s[..n] + [s[n]];
    }
  }

  lemma EncodeNothing()
    ensures EncodeToBase32([]) == []
  {
  }

  lemma EncodeLast(data: seq<bv8>)
    requires AllSymbols(data) && data != []
    ensures EncodeToBase32(data) == EncodeToBase32(data[..|data| - 1]) + [CharOf(data[|data| - 1])]
  {
    hide CharOf;
  }

  predicate AllSymbols(data: seq<bv8>) {
    forall k :: 0 <= k < |data| ==> data[k] < 32
  }

  // ----- case -----

  predicate IsUpper(c: bv8) {
    0x41 <= c <= 0x5a
  }

  predicate IsLower(c: bv8) {
    0x61 <= c <= 0x7a
  }

  function LowerChar(c: bv8): bv8 {
    if IsUpper(c) then c + 32 else c
  }

  function UpperChar(c: bv8): bv8 {
    if IsLower(c) then c - 32 else c
  }

  function ToLower(s: seq<bv8>): (t: seq<bv8>)
    ensures |t| == |s|
  {
    seq(|s|, k requires 0 <= k < |s| => LowerChar(s[k]))
  }

  function ToUpper(s: seq<bv8>): (t: seq<bv8>)
    ensures |t| == |s|
  {
    seq(|s|, k requires 0 <= k < |s| => UpperChar(s[k]))
  }

  predicate Printable(s: seq<bv8>) {
    forall k :: 0 <= k < |s| ==> 33 <= s[k] <= 126
  }

  predicate NoUpper(s: seq<bv8>) {
    forall k :: 0 <= k < |s| ==> !IsUpper(s[k])
  }

  lemma CaseChars(c: bv8)
    ensures !IsUpper(LowerChar(c))
    ensures 33 <= c <= 126 ==> 33 <= LowerChar(c) <= 126 && 33 <= UpperChar(c) <= 126
    ensures !IsUpper(c) ==> LowerChar(UpperChar(c)) == c && LowerChar(c) == c
    ensures UpperChar(UpperChar(c)) == UpperChar(c)
  {
  }

  lemma LowerOf(s: seq<bv8>)
    ensures NoUpper(ToLower(s)) && (Printable(s) ==> Printable(ToLower(s)))
    ensures NoUpper(s) ==> ToLower(s) == s && ToLower(ToUpper(s)) == s
    ensures ToUpper(ToUpper(s)) == ToUpper(s) && (Printable(s) ==> Printable(ToUpper(s)))
  {
    forall k | 0 <= k < |s|
      ensures !IsUpper(ToLower(s)[k]) && ToUpper(ToUpper(s))[k] == ToUpper(s)[k]
      ensures 33 <= s[k] <= 126 ==> 33 <= ToLower(s)[k] <= 126 && 33 <= ToUpper(s)[k] <= 126
      ensures !IsUpper(s[k]) ==> ToLower(s)[k] == s[k] && ToLower(ToUpper(s))[k] == s[k]
    {
      CaseChars(s[k]);
    }
  }

  // ----- checksum of a prefix and a payload -----

  function Bytes(p: Poly): seq<bv8> {
    [p.c7 as bv8, p.c6 as bv8, p.c5 as bv8, p.c4 as bv8, p.c3 as bv8, p.c2 as bv8, p.c1 as bv8, p.c0 as bv8]
  }

  const EIGHT_ZEROS: seq<bv5> := [0, 0, 0, 0, 0, 0, 0, 0]

  /** What the checksum is taken over. */
  function Covered(prefix: seq<bv8>, payload: seq<bv8>): seq<bv5> {
    Symbols(prefix) + [0] + Symbols(payload)
  }

  function Checksum(prefix: seq<bv8>, payload: seq<bv8>): seq<bv8> {
    Bytes(PolyMod(Covered(prefix, payload) + EIGHT_ZEROS))
  }

  predicate Verifies(prefix: seq<bv8>, payload: seq<bv8>) {
    PolyMod(Covered(prefix, payload)) == ZERO
  }

  // ----- strings -----

  /** The last position of a colon before `n`, or -1. */
  function LastColon(s: seq<bv8>, n: nat): (i: int)
    requires n <= |s|
    ensures -1 <= i < n
    ensures i >= 0 ==> s[i] == COLON
    ensures forall k :: i < k < n ==> s[k] != COLON
  {
    if n == 0 then -1 else if s[n - 1] == COLON then n - 1 else LastColon(s, n - 1)
  }

  datatype Parsed = Parsed(prefix: seq<bv8>, data: seq<bv8>)

  /** decode: the prefix and the data without its checksum. */
  function Parse(encoded: seq<bv8>): Option<Parsed> {
    if |encoded| < CHECKSUM_LENGTH + 2 || !Printable(encoded) then None
    else if encoded != ToLower(encoded) && encoded != ToUpper(encoded) then None
    else ParseLower(ToLower(encoded))
  }

  function ParseLower(encoded: seq<bv8>): Option<Parsed> {
    var colon := LastColon(encoded, |encoded|);
    if colon < 1 || colon + CHECKSUM_LENGTH + 1 > |encoded| then None
    else
      var prefix := encoded[..colon];
      var decoded := DecodeFromBase32(encoded[colon + 1..]);
      if decoded.None? || !Verifies(prefix, decoded.value) then None
      else Some(Parsed(prefix, decoded.value[..|decoded.value| - CHECKSUM_LENGTH]))
  }

  /** encode: the prefix, a colon, and the data with its checksum in base 32. */
  function Format(prefix: seq<bv8>, data: seq<bv8>): seq<bv8> {
    prefix + [COLON] + EncodeToBase32(data + Checksum(prefix, data))
  }

  function Encode(prefix: seq<bv8>, payload: seq<bv8>, version: bv8): seq<bv8> {
    Format(prefix, ConvertBits([version] + payload, 8, 5, true))
  }

  /** Decoding succeeds, fails with an error, or reads past the end of data too short for a version. */
  datatype Decoding = Decoded(prefix: seq<bv8>, payload: seq<bv8>, version: bv8) | DecodeError | OutOfRange

  function Decode(encoded: seq<bv8>): Decoding {
    var parsed := Parse(encoded);
    if parsed.None? then DecodeError
    else
      var converted := ConvertBits(parsed.value.data, 5, 8, false);
      if converted == [] then OutOfRange else Decoded(parsed.value.prefix, converted[1..], converted[0])
  }

  // ----- the checksum verifies itself -----

  lemma BytesAreSymbols(p: Poly)
    ensures AllSymbols(Bytes(p)) && Window(Symbols(Bytes(p))) == p
  {
  }

  lemma DifferenceFromZeros(w: seq<bv5>)
    requires |w| == 8
    ensures Difference(EIGHT_ZEROS, w) == w
  {
    forall k | 0 <= k < 8 ensures Difference(EIGHT_ZEROS, w)[k] == w[k] {
      assert EIGHT_ZEROS[k] == 0;
      assert 0 ^ w[k] == w[k];
    }
  }

  /** Eight symbols taken in instead of eight zeros add themselves to the remainder. */
  lemma FoldEight(p: Poly, w: seq<bv5>)
    requires |w| == 8
    ensures Fold(p, w) == Add(Fold(p, EIGHT_ZEROS), Window(w))
  {
    FoldLinear(p, ZERO, EIGHT_ZEROS, w);
    AddZero(p);
    DifferenceFromZeros(w);
    FoldWindow(w);
  }

  lemma SymbolsConcat(a: seq<bv8>, b: seq<bv8>)
    ensures Symbols(a + b) == Symbols(a) + Symbols(b)
  {
  }

  /** A payload followed by its checksum verifies. */
  lemma ChecksumVerifies(prefix: seq<bv8>, payload: seq<bv8>)
    ensures Verifies(prefix, payload + Checksum(prefix, payload))
  {
    var covered := Covered(prefix, payload);
    var r := PolyMod(covered + EIGHT_ZEROS);
    var w := Symbols(Bytes(r));
    BytesAreSymbols(r);
    SymbolsConcat(payload, Bytes(r));
    assert Covered(prefix, payload + Bytes(r)) == covered + w;
    var p := Fold(ONE, covered);
    FoldConcat(ONE, covered, w);
    FoldConcat(ONE, covered, EIGHT_ZEROS);
    FoldEight(p, w);
    var f := Fold(p, EIGHT_ZEROS);
    AddAssociates(f, f, ONE);
    AddZero(f);
    AddZero(ONE);
  }

  /** For every prefix and length: a corruption of at most eight consecutive symbols of
      verified data is detected. */
  lemma CorruptionDetected(prefix: seq<bv8>, before: seq<bv8>, w1: seq<bv8>, w2: seq<bv8>, after: seq<bv8>)
    requires AllSymbols(w1) && AllSymbols(w2) && |w1| == |w2| <= 8 && w1 != w2
    requires Verifies(prefix, before + w1 + after)
    ensures !Verifies(prefix, before + w2 + after)
  {
    var p := Symbols(prefix) + [0] + Symbols(before);
    CoveredParts(prefix, before, w1, after);
    CoveredParts(prefix, before, w2, after);
    SymbolsDiffer(w1, w2);
    BurstDetected(p, Symbols(w1), Symbols(w2), Symbols(after));
  }

  lemma CoveredParts(prefix: seq<bv8>, before: seq<bv8>, w: seq<bv8>, after: seq<bv8>)
    ensures Covered(prefix, before + w + after)
         == (Symbols(prefix) + [0] + Symbols(before)) + Symbols(w) + Symbols(after)
  {
    SymbolsConcat(before + w, after);
    SymbolsConcat(before, w);
  }

  lemma SymbolsDiffer(a: seq<bv8>, b: seq<bv8>)
    requires AllSymbols(a) && AllSymbols(b) && |a| == |b| && a != b
    ensures Symbols(a) != Symbols(b)
  {
    var k :| 0 <= k < |a| && a[k] != b[k];
    Low5Injective(a[k], b[k]);
    assert Symbols(a)[k] != Symbols(b)[k];
  }

  lemma Low5Injective(a: bv8, b: bv8)
    requires a < 32 && b < 32 && a != b
    ensures Low5(a) != Low5(b)
  {
  }

  // ----- round trips -----

  /** The prefixes that survive: not empty, printable and without upper-case letters. */
  predicate GoodPrefix(prefix: seq<bv8>) {
    prefix != [] && forall k :: 0 <= k < |prefix| ==> 33 <= prefix[k] <= 126 && !(0x41 <= prefix[k] <= 0x5a)
  }

  lemma Base32IsGood(data: seq<bv8>)
    requires AllSymbols(data)
    ensures Printable(EncodeToBase32(data)) && NoUpper(EncodeToBase32(data))
    ensures forall k :: 0 <= k < |EncodeToBase32(data)| ==> EncodeToBase32(data)[k] != COLON
  {
    forall k | 0 <= k < |data|
      ensures var c := EncodeToBase32(data)[k]; 33 <= c <= 126 && !IsUpper(c) && c != COLON
    {
      CharFacts(data[k] as int);
    }
  }

  lemma LastColonIs(s: seq<bv8>, n: nat, i: nat)
    requires i < n <= |s| && s[i] == COLON && forall k :: i < k < n ==> s[k] != COLON
    ensures LastColon(s, n) == i
  {
  }

  lemma ChecksumSymbols(prefix: seq<bv8>, data: seq<bv8>)
    ensures |Checksum(prefix, data)| == CHECKSUM_LENGTH && AllSymbols(Checksum(prefix, data))
  {
    BytesAreSymbols(PolyMod(Covered(prefix, data) + EIGHT_ZEROS));
  }

  /** What encode writes, decode reads. */
  lemma ParseLowerFormat(prefix: seq<bv8>, data: seq<bv8>)
    requires prefix != [] && AllSymbols(data)
    ensures ParseLower(Format(prefix, data)) == Some(Parsed(prefix, data))
  {
    hide EncodeToBase32, DecodeFromBase32, Checksum, Verifies, InBody;
    var combined := data + Checksum(prefix, data);
    var body := EncodeToBase32(combined);
    var s := Format(prefix, data);
    ChecksumSymbols(prefix, data);
    Base32RoundTrip(combined);
    Base32IsGood(combined);
    assert forall k :: |prefix| < k < |s| ==> s[k] == body[k - |prefix| - 1];
    LastColonIs(s, |s|, |prefix|);
    assert s[..|prefix|] == prefix && s[|prefix| + 1..] == body;
    ChecksumVerifies(prefix, data);
    assert combined[..|combined| - CHECKSUM_LENGTH] == data;
  }

  lemma FormatIsGood(prefix: seq<bv8>, data: seq<bv8>)
    requires GoodPrefix(prefix) && AllSymbols(data)
    ensures |Format(prefix, data)| >= CHECKSUM_LENGTH + 2
    ensures Printable(Format(prefix, data)) && NoUpper(Format(prefix, data))
  {
    hide EncodeToBase32, DecodeFromBase32, Checksum;
    ChecksumSymbols(prefix, data);
    Base32RoundTrip(data + Checksum(prefix, data));
    Base32IsGood(data + Checksum(prefix, data));
  }

  lemma ParseFormat(prefix: seq<bv8>, data: seq<bv8>)
    requires GoodPrefix(prefix) && AllSymbols(data)
    ensures Parse(Format(prefix, data)) == Some(Parsed(prefix, data))
    ensures Parse(ToUpper(Format(prefix, data))) == Some(Parsed(prefix, data))
  {
    FormatIsGood(prefix, data);
    LowerOf(Format(prefix, data));
    ParseLowerFormat(prefix, data);
  }

  /** What is decoded has a good prefix. */
  lemma ParsedIsGood(encoded: seq<bv8>)
    ensures Parse(encoded).Some? ==> GoodPrefix(Parse(encoded).value.prefix)
  {
    if Parse(encoded).Some? {
      LowerOf(encoded);
    }
  }

  lemma ConvertedAreSymbols(data: seq<bv8>)
    ensures AllSymbols(ConvertBits(data, 8, 5, true))
  {
    var bits := Flatten(data, 8);
    GroupsSmall(bits + Zeros(Missing(|bits|, 5)), 5);
    assert (1 as bv8) << 5 == 32;
  }

  /** Decoding an encoded string gives back prefix, payload and version, exactly for the good
      prefixes; and so does decoding it in upper case. */
  lemma RoundTrip(prefix: seq<bv8>, payload: seq<bv8>, version: bv8)
    ensures Decode(Encode(prefix, payload, version)) == Decoded(prefix, payload, version) <==> GoodPrefix(prefix)
    ensures GoodPrefix(prefix) ==>
      Decode(ToUpper(Encode(prefix, payload, version))) == Decoded(prefix, payload, version)
  {
    var data := [version] + payload;
    var converted := ConvertBits(data, 8, 5, true);
    ConvertedAreSymbols(data);
    EightToFiveToEight(data);
    assert data[1..] == payload;
    if GoodPrefix(prefix) {
      ParseFormat(prefix, converted);
    } else {
      ParsedIsGood(Encode(prefix, payload, version));
    }
  }

  /** Verified data ends with the checksum of what comes before: the checksum is unique. */
  lemma VerifiedIsChecksum(prefix: seq<bv8>, decoded: seq<bv8>)
    requires AllSymbols(decoded) && |decoded| >= CHECKSUM_LENGTH && Verifies(prefix, decoded)
    ensures var data := decoded[..|decoded| - CHECKSUM_LENGTH];
      decoded == data + Checksum(prefix, data)
  {
    hide Verifies, Checksum;
    var n := |decoded| - CHECKSUM_LENGTH;
    var data, tail := decoded[..n], decoded[n..];
    ChecksumVerifies(prefix, data);
    ChecksumSymbols(prefix, data);
    assert decoded == data + tail + [];
    assert data + Checksum(prefix, data) == data + Checksum(prefix, data) + [];
    if tail != Checksum(prefix, data) {
      CorruptionDetected(prefix, data, tail, Checksum(prefix, data), []);
    }
  }

  /** The string is the formatted data, in lower or in upper case. */
  predicate Writes(prefix: seq<bv8>, data: seq<bv8>, encoded: seq<bv8>) {
    && GoodPrefix(prefix)
    && AllSymbols(data)
    && (encoded == Format(prefix, data) || encoded == ToUpper(Format(prefix, data)))
  }

  lemma UpperOfLower(s: seq<bv8>)
    ensures ToUpper(ToLower(s)) == ToUpper(s)
  {
    forall k | 0 <= k < |s| ensures ToUpper(ToLower(s))[k] == ToUpper(s)[k] {
      assert UpperChar(LowerChar(s[k])) == UpperChar(s[k]);
    }
  }

  /** Every string that is accepted is the formatted form of what it is parsed into. */
  lemma ParsedIsFormatted(encoded: seq<bv8>)
    requires Parse(encoded).Some?
    ensures Writes(Parse(encoded).value.prefix, Parse(encoded).value.data, encoded)
  {
    hide ParseLower, Format, Printable, GoodPrefix, AllSymbols, ToUpper, ToLower;
    ParsedIsGood(encoded);
    UpperOfLower(encoded);
    LowerIsFormatted(ToLower(encoded));
  }

  lemma LowerIsFormatted(lower: seq<bv8>)
    requires ParseLower(lower).Some?
    ensures var parsed := ParseLower(lower).value;
      AllSymbols(parsed.data) && lower == Format(parsed.prefix, parsed.data)
  {
    hide Verifies, Checksum, EncodeToBase32, LastColon, DecodeFromBase32;
    var colon := LastColon(lower, |lower|);
    var decoded := DecodeFromBase32(lower[colon + 1..]).value;
    Base32Inverse(lower[colon + 1..]);
    VerifiedIsChecksum(lower[..colon], decoded);
    assert lower == lower[..colon] + [COLON] + lower[colon + 1..];
  }

  /** The accepted strings are the formatted ones, each for one prefix and data. */
  lemma ParseExactly(encoded: seq<bv8>, prefix: seq<bv8>, data: seq<bv8>)
    ensures Parse(encoded) == Some(Parsed(prefix, data)) <==> Writes(prefix, data, encoded)
  {
    hide Parse, Format;
    if Writes(prefix, data, encoded) {
      ParseFormat(prefix, data);
    }
    if Parse(encoded) == Some(Parsed(prefix, data)) {
      ParsedIsFormatted(encoded);
    }
  }

  /** An encoded string starts with the prefix, a colon, and the top five bits of the version. */
  lemma EncodedStarts(prefix: seq<bv8>, payload: seq<bv8>, version: bv8)
    ensures var encoded := Encode(prefix, payload, version);
      && |encoded| >= |prefix| + 2 + CHECKSUM_LENGTH
      && encoded[..|prefix|] == prefix && encoded[|prefix|] == 0x3a
      && version >> 3 < 32 && encoded[|prefix| + 1] == CharOf(version >> 3)
  {
    hide ConvertBits, Checksum, CharOf;
    var data := [version] + payload;
    var converted := ConvertBits(data, 8, 5, true);
    FirstSymbol(data);
    ConvertedAreSymbols(data);
    ChecksumSymbols(prefix, converted);
    FirstCharacter(converted + Checksum(prefix, converted));
  }

  lemma FirstCharacter(data: seq<bv8>)
    requires AllSymbols(data) && data != []
    ensures |EncodeToBase32(data)| == |data| && EncodeToBase32(data)[0] == CharOf(data[0])
  {
    hide CharOf;
  }

  lemma ExampleChecksum()
    ensures Checksum([0x61], [15, 0]) == [9, 26, 18, 3, 23, 11, 13, 0]
  {
    hide PolyMod;
    assert Symbols([0x61]) == [1] && Symbols([15, 0]) == [15, 0];
    assert Covered([0x61], [15, 0]) + EIGHT_ZEROS == [1, 0, 15, 0, 0, 0, 0, 0, 0, 0, 0, 0];
    KnownRemainder();
  }

  lemma ExampleCharacters()
    ensures EncodeToBase32([15, 0, 9, 26, 18, 3, 23, 11, 13, 0])
         == [0x30, 0x71, 0x66, 0x36, 0x6a, 0x72, 0x68, 0x74, 0x64, 0x71]
  {
  }

  /** The prefix "a" with version 120 and no payload is written a:0qf6jrhtdq. */
  lemma EncodeExample()
    ensures Encode([0x61], [], 120)
         == [0x61, 0x3a, 0x30, 0x71, 0x66, 0x36, 0x6a, 0x72, 0x68, 0x74, 0x64, 0x71]
  {
    hide ConvertBits, Checksum, EncodeToBase32;
    ExampleSymbols();
    ExampleChecksum();
    ExampleCharacters();
    assert [120 as bv8] + [] == [120];
    assert [15, 0] + Checksum([0x61], [15, 0]) == [15, 0, 9, 26, 18, 3, 23, 11, 13, 0];
  }

  /** An accepted string has at least ten characters, all printable, and letters of one case only. */
  lemma AcceptedCharacters(encoded: seq<bv8>)
    requires Parse(encoded).Some?
    ensures |encoded| >= 10 && forall k :: 0 <= k < |encoded| ==> 33 <= encoded[k] <= 126
    ensures forall i, j :: 0 <= i < |encoded| && 0 <= j < |encoded| && 0x41 <= encoded[i] <= 0x5a ==>
      !(0x61 <= encoded[j] <= 0x7a)
  {
    hide ParseLower;
    forall i, j | 0 <= i < |encoded| && 0 <= j < |encoded| && 0x41 <= encoded[i] <= 0x5a
      ensures !(0x61 <= encoded[j] <= 0x7a)
    {
      assert ToLower(encoded)[i] == LowerChar(encoded[i]) != encoded[i];
      assert ToUpper(encoded)[j] == UpperChar(encoded[j]);
    }
  }

  // ----- corruption of strings -----

  /** The strings differ at most from position `i` up to position `j`. */
  ghost predicate DifferWithin(a: seq<bv8>, b: seq<bv8>, i: nat, j: nat) {
    && i <= j <= |a| == |b|
    && forall k :: 0 <= k < |a| && !(i <= k < j) ==> a[k] == b[k]
  }

  ghost predicate WritesColon(b: seq<bv8>, i: nat, j: nat)
    requires i <= j <= |b|
  {
    exists k :: i <= k < j && b[k] == COLON
  }

  lemma {:induction false} DecodedAt(s: seq<bv8>, k: nat)
    requires DecodeFromBase32(s).Some? && k < |s|
    ensures SymbolOf(s[k]) == Some(DecodeFromBase32(s).value[k])
    decreases |s|
  {
    hide SymbolOf;
    if k < |s| - 1 {
      DecodedAt(s[..|s| - 1], k);
    }
  }

  /** Data that decodes and verifies is determined by all but eight consecutive characters. */
  lemma DataCorruption(prefix: seq<bv8>, s: seq<bv8>, t: seq<bv8>, i: nat, j: nat)
    requires DifferWithin(s, t, i, j) && j - i <= 8
    requires DecodeFromBase32(s).Some? && DecodeFromBase32(t).Some?
    requires Verifies(prefix, DecodeFromBase32(s).value) && Verifies(prefix, DecodeFromBase32(t).value)
    ensures s == t
  {
    hide DecodeFromBase32, SymbolOf, Verifies, EncodeToBase32;
    var d, e := DecodeFromBase32(s).value, DecodeFromBase32(t).value;
    forall k | 0 <= k < |s| && !(i <= k < j) ensures d[k] == e[k] {
      DecodedAt(s, k);
      DecodedAt(t, k);
    }
    assert d == d[..i] + d[i..j] + d[j..] && e == d[..i] + e[i..j] + d[j..];
    if d[i..j] != e[i..j] {
      CorruptionDetected(prefix, d[..i], d[i..j], e[i..j], d[j..]);
    }
    Base32Inverse(s);
    Base32Inverse(t);
  }

  lemma ColonStays(a: seq<bv8>, b: seq<bv8>, i: nat, j: nat)
    requires DifferWithin(a, b, i, j) && 0 <= LastColon(a, |a|) < i
    ensures !WritesColon(b, i, j) ==> LastColon(b, |b|) == LastColon(a, |a|)
    ensures WritesColon(b, i, j) ==> i <= LastColon(b, |b|) < j
  {
    hide LastColon;
    var p, q := LastColon(a, |a|), LastColon(b, |b|);
    assert a[p] == COLON && b[p] == COLON && q >= p;
  }

  lemma LowerCorruption(a: seq<bv8>, b: seq<bv8>, i: nat, j: nat)
    requires ParseLower(a).Some? && ParseLower(b).Some?
    requires DifferWithin(a, b, i, j) && j - i <= 8 && LastColon(a, |a|) < i && !WritesColon(b, i, j)
    ensures a == b
  {
    hide LastColon, DecodeFromBase32, Verifies, WritesColon;
    var p := LastColon(a, |a|);
    ColonStays(a, b, i, j);
    assert a[..p] == b[..p];
    DataCorruption(a[..p], a[p + 1..], b[p + 1..], i - p - 1, j - p - 1);
    assert a == a[..p] + [a[p]] + a[p + 1..] && b == b[..p] + [b[p]] + b[p + 1..];
  }

  /** What the checksum of a string is taken over, position by position. */
  lemma CoveredAt(s: seq<bv8>, colon: nat, k: nat)
    requires colon < |s| && k < |s| && DecodeFromBase32(s[colon + 1..]).Some?
    ensures var data := DecodeFromBase32(s[colon + 1..]).value;
      |Covered(s[..colon], data)| == |s|
      && Covered(s[..colon], data)[k]
         == if k < colon then Low5(s[k]) else if k == colon then 0 else Low5(data[k - colon - 1])
  {
    hide DecodeFromBase32;
  }

  /** Behind both separators, the same character counts the same. */
  lemma CoveredBehind(a: seq<bv8>, p: nat, b: seq<bv8>, q: nat, k: nat)
    requires p < k < |a| == |b| && q < k && a[k] == b[k]
    requires DecodeFromBase32(a[p + 1..]).Some? && DecodeFromBase32(b[q + 1..]).Some?
    ensures DecodeFromBase32(a[p + 1..]).value[k - p - 1] == DecodeFromBase32(b[q + 1..]).value[k - q - 1]
  {
    hide DecodeFromBase32, SymbolOf;
    DecodedAt(a[p + 1..], k - p - 1);
    DecodedAt(b[q + 1..], k - q - 1);
  }

  lemma ColonCounts()
    ensures Low5(COLON) != 0
  {
  }

  /** A colon written within eight positions of the separator is detected: it becomes the separator, and
      the old one a part of the prefix. */
  lemma ColonDetected(a: seq<bv8>, b: seq<bv8>, i: nat, j: nat)
    requires ParseLower(a).Some? && DifferWithin(a, b, i, j) && WritesColon(b, i, j)
    requires LastColon(a, |a|) < i && j - LastColon(a, |a|) <= 8
    ensures ParseLower(b).None?
  {
    hide LastColon, DecodeFromBase32, WritesColon, Covered, PolyMod, Low5;
    var p, q := LastColon(a, |a|), LastColon(b, |b|);
    ColonStays(a, b, i, j);
    if ParseLower(b).Some? {
      var d, e := DecodeFromBase32(a[p + 1..]).value, DecodeFromBase32(b[q + 1..]).value;
      var x, y := Covered(a[..p], d), Covered(b[..q], e);
      CoveredAt(a, p, p);
      CoveredAt(b, q, p);
      ColonCounts();
      forall k | 0 <= k < |a| && !(p <= k < j) ensures x[k] == y[k] {
        CoveredAt(a, p, k);
        CoveredAt(b, q, k);
        if k >= j {
          CoveredBehind(a, p, b, q, k);
        }
      }
      WindowDetected(x, y, p, j);
    }
  }

  lemma WindowDetected(x: seq<bv5>, y: seq<bv5>, p: nat, j: nat)
    requires p < j <= |x| == |y| && j - p <= 8 && x[p] != y[p]
    requires forall k :: 0 <= k < |x| && !(p <= k < j) ==> x[k] == y[k]
    ensures PolyMod(x) != PolyMod(y)
  {
    hide PolyMod;
    assert x == x[..p] + x[p..j] + x[j..] && y == x[..p] + y[p..j] + x[j..];
    assert x[p..j][0] != y[p..j][0];
    BurstDetected(x[..p], x[p..j], y[p..j], x[j..]);
  }

  lemma LowerColon(c: bv8)
    ensures LowerChar(c) == COLON <==> c == COLON
  {
  }

  lemma {:induction false} LastColonOfLower(s: seq<bv8>, n: nat)
    requires n <= |s|
    ensures LastColon(ToLower(s), n) == LastColon(s, n)
  {
    if n > 0 {
      LowerColon(s[n - 1]);
      LastColonOfLower(s, n - 1);
    }
  }

  lemma LowerKeepsWindow(a: seq<bv8>, b: seq<bv8>, i: nat, j: nat)
    requires DifferWithin(a, b, i, j)
    ensures DifferWithin(ToLower(a), ToLower(b), i, j) && (WritesColon(ToLower(b), i, j) <==> WritesColon(b, i, j))
  {
    hide LowerChar;
    forall k | i <= k < j ensures ToLower(b)[k] == COLON <==> b[k] == COLON {
      LowerColon(b[k]);
    }
    if WritesColon(b, i, j) {
      var k :| i <= k < j && b[k] == COLON;
      assert ToLower(b)[k] == COLON;
    }
  }

  /** If at most eight consecutive characters behind the separator of an accepted string are replaced, the
      result is refused, unless only cases changed or a colon is written. A colon that is written becomes
      the separator, and the old one a part of the prefix; within eight positions of the old one that is
      refused too. */
  lemma StringCorruption(a: seq<bv8>, b: seq<bv8>, i: nat, j: nat)
    requires Parse(a).Some? && DifferWithin(a, b, i, j) && j - i <= 8 && LastColon(a, |a|) < i
    ensures !WritesColon(b, i, j) && Parse(b).Some? ==> ToLower(b) == ToLower(a)
    ensures WritesColon(b, i, j) && j - LastColon(a, |a|) <= 8 ==> Parse(b).None?
    ensures WritesColon(b, i, j) && Parse(b).Some? ==>
      |Parse(b).value.prefix| >= i && LastColon(a, |a|) >= 0 && Parse(b).value.prefix[LastColon(a, |a|)] == COLON
  {
    hide DifferWithin, WritesColon, ToLower, Printable, ToUpper, LastColon, DecodeFromBase32, Verifies;
    var lowerA, lowerB := ToLower(a), ToLower(b);
    LastColonOfLower(a, |a|);
    LowerKeepsWindow(a, b, i, j);
    WindowLength(a, b, i, j);
    if Parse(b).Some? {
      ColonStays(lowerA, lowerB, i, j);
      if !WritesColon(b, i, j) {
        LowerCorruption(lowerA, lowerB, i, j);
      } else {
        ColonOutside(lowerA, lowerB, i, j);
        if j - LastColon(a, |a|) <= 8 {
          ColonDetected(lowerA, lowerB, i, j);
        }
      }
    }
  }

  lemma WindowLength(a: seq<bv8>, b: seq<bv8>, i: nat, j: nat)
    requires DifferWithin(a, b, i, j)
    ensures i <= j <= |a| == |b|
  {
  }

  lemma ColonOutside(a: seq<bv8>, b: seq<bv8>, i: nat, j: nat)
    requires DifferWithin(a, b, i, j) && 0 <= LastColon(a, |a|) < i
    ensures b[LastColon(a, |a|)] == COLON
  {
  }

  /** Decoding reads past the end exactly on the strings that hold at most one data symbol. */
  lemma OutOfRangeExactly(encoded: seq<bv8>)
    ensures Decode(encoded).OutOfRange? <==> exists prefix, data :: |data| <= 1 && Writes(prefix, data, encoded)
  {
    hide Parse, Writes;
    if Parse(encoded).Some? {
      var parsed := Parse(encoded).value;
      FiveToEightIsEmpty(parsed.data);
      ParseExactly(encoded, parsed.prefix, parsed.data);
    }
    forall prefix, data | Writes(prefix, data, encoded)
      ensures Parse(encoded) == Some(Parsed(prefix, data))
    {
      ParseExactly(encoded, prefix, data);
    }
  }

  /** There are such strings, for every prefix. */
  lemma ShortIsOutOfRange(prefix: seq<bv8>, data: seq<bv8>)
    requires GoodPrefix(prefix) && AllSymbols(data)
    ensures Decode(Format(prefix, data)).OutOfRange? <==> |data| <= 1
  {
    ParseFormat(prefix, data);
    FiveToEightIsEmpty(data);
  }

  // ----- the loops -----

  method ComputeBase32(data: seq<bv8>) returns (result: seq<bv8>)
    ensures result == EncodeToBase32(data)
  {
    result := [];
    for k := 0 to |data|
      invariant AllSymbols(data[..k]) && |result| == k
      invariant forall j :: 0 <= j < k ==> data[j] < 32 && result[j] == CharOf(data[j])
    {
      if data[k] as int >= |CHARSET| {
        return [];
      }
      result := result + [CHARSET[data[k] as int]];
    }
  }

  method ParseBase32(s: seq<bv8>) returns (decoded: Option<seq<bv8>>)
    ensures decoded == DecodeFromBase32(s)
  {
    hide IndexFrom;
    var result := [];
    for k := 0 to |s|
      invariant DecodeFromBase32(s[..k]) == Some(result)
    {
      assert s[..k + 1][..k] == s[..k];
      var index := IndexFrom(s[k], 0);
      if index.None? {
        DecodeFailsFrom(s, k + 1);
        return None;
      }
      result := result + [index.value as bv8];
    }
    assert s[..|s|] == s;
    decoded := Some(result);
  }

  lemma {:induction false} DecodeFailsFrom(s: seq<bv8>, k: nat)
    requires k <= |s| && DecodeFromBase32(s[..k]).None?
    ensures DecodeFromBase32(s).None?
    decreases |s| - k
  {
    if k == |s| {
      assert s[..k] == s;
    } else {
      assert s[..k + 1][..k] == s[..k];
      DecodeFailsFrom(s, k + 1);
    }
  }

  /** calculateChecksum: the eight symbols of the remainder, the highest first. */
  method ComputeChecksum(prefix: seq<bv8>, payload: seq<bv8>) returns (checksum: seq<bv8>)
    requires AllSymbols(payload)
    ensures checksum == Checksum(prefix, payload)
  {
    var values := PrefixValues(prefix) + [0] + payload + [0, 0, 0, 0, 0, 0, 0, 0];
    PrefixSymbols(prefix);
    assert Symbols(values) == Covered(prefix, payload) + EIGHT_ZEROS;
    var r := ComputePolyMod(values);
    checksum := [];
    for i := 0 to CHECKSUM_LENGTH
      invariant checksum == Bytes(Unpack(r))[..i]
    {
      RemainderSymbol(r, i);
      checksum := checksum + [SymbolAt(r, i as bv8)];
    }
  }

  method VerifyChecksum(prefix: seq<bv8>, payload: seq<bv8>) returns (ok: bool)
    requires AllSymbols(payload)
    ensures ok <==> Verifies(prefix, payload)
  {
    var values := PrefixValues(prefix) + [0] + payload;
    PrefixSymbols(prefix);
    assert Symbols(values) == Covered(prefix, payload);
    var r := ComputePolyMod(values);
    UnpackZero(r);
    ok := r == 0;
  }

  /** prefixToUint5Array. */
  function PrefixValues(prefix: seq<bv8>): (values: seq<bv8>)
    ensures |values| == |prefix| && AllSymbols(values)
  {
    seq(|prefix|, k requires 0 <= k < |prefix| => prefix[k] & 31)
  }

  lemma PrefixSymbols(prefix: seq<bv8>)
    ensures Symbols(PrefixValues(prefix)) == Symbols(prefix)
  {
    forall k | 0 <= k < |prefix| ensures Symbols(PrefixValues(prefix))[k] == Symbols(prefix)[k] {
      assert (prefix[k] & 31) & 31 == prefix[k] & 31;
    }
  }

  /** The i-th symbol of a remainder, counted from the highest. */
  function SymbolAt(r: bv40, i: bv8): bv8
    requires i < 8
  {
    Low5OfWord(r >> (5 * (7 - i)))
  }

  function Low5OfWord(r: bv40): bv8 {
    (r & 31) as bv8
  }

  lemma RemainderSymbol(r: bv40, i: nat)
    requires i < 8
    ensures Bytes(Unpack(r))[i] == SymbolAt(r, i as bv8)
  {
    SymbolsAt(r);
  }

  lemma SymbolsAt(r: bv40)
    ensures Bytes(Unpack(r)) == [SymbolAt(r, 0), SymbolAt(r, 1), SymbolAt(r, 2), SymbolAt(r, 3),
                                 SymbolAt(r, 4), SymbolAt(r, 5), SymbolAt(r, 6), SymbolAt(r, 7)]
  {
    RemainderBytes(r);
  }

  lemma RemainderBytes(r: bv40)
    ensures Bytes(Unpack(r))
         == [((r >> 35) & 31) as bv8, ((r >> 30) & 31) as bv8, ((r >> 25) & 31) as bv8, ((r >> 20) & 31) as bv8,
             ((r >> 15) & 31) as bv8, ((r >> 10) & 31) as bv8, ((r >> 5) & 31) as bv8, (r & 31) as bv8]
  {
  }
}
