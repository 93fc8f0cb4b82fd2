/** Internal keys as bytes: a user key followed by a footer of eight bytes that packs a sequence number and a type. */
module DbFormat {
  import opened SequenceNumbers

  type Byte = b: int | 0 <= b < 256
  type Bytes = seq<Byte>

  const DISABLE_GLOBAL_SEQUENCE: nat := 0xFFFF_FFFF_FFFF_FFFF
  const NUM_INTERNAL_BYTES: nat := 8
  const TWO_TO_THE_64: nat := 0x1_0000_0000_0000_0000

  const TYPE_MERGE: Byte := 0x2
  const TYPE_SINGLE_DELETION: Byte := 0x7
  const TYPE_RANGE_DELETION: Byte := 0xF
  const TYPE_BLOB_INDEX: Byte := 0x11
  const TYPE_DELETION_WITH_TIMESTAMP: Byte := 0x14
  /** kValueTypeForSeek */
  const TYPE_FOR_SEEK: Byte := TYPE_DELETION_WITH_TIMESTAMP

  /** IsExtendedValueType */
  predicate IsExtendedValueType(t: Byte) {
    t <= TYPE_MERGE || t == TYPE_SINGLE_DELETION || t == TYPE_BLOB_INDEX || t == TYPE_DELETION_WITH_TIMESTAMP
    || t == TYPE_RANGE_DELETION
  }

  datatype ParsedInternalKey = ParsedInternalKey(userKey: Bytes, sequence: nat, kind: Byte) {
    predicate Valid() {
      sequence <= MAX_SEQUENCE && IsExtendedValueType(kind)
    }
  }

  datatype ParseResult = Parsed(key: ParsedInternalKey) | Corruption(message: string)

  // ----- Little-endian integers -----

  function Power256(n: nat): nat {
    if n == 0 then 1 else 256 * Power256(n - 1)
  }

  function EncodeLittleEndian(v: nat, n: nat): (r: Bytes)
    ensures |r| == n
  {
    if n == 0 then [] else [v % 256] + EncodeLittleEndian(v / 256, n - 1)
  }

  function DecodeLittleEndian(b: Bytes): nat {
    if b == [] then 0 else b[0] + 256 * DecodeLittleEndian(b[1..])
  }

  lemma {:induction false} DecodeEncode(v: nat, n: nat)
    requires v < Power256(n)
    ensures DecodeLittleEndian(EncodeLittleEndian(v, n)) == v
  {
    if n > 0 {
      DecodeEncode(v / 256, n - 1);
      assert EncodeLittleEndian(v, n)[1..] == EncodeLittleEndian(v / 256, n - 1);
    }
  }

  lemma {:induction false} EncodeDecode(b: Bytes)
    ensures DecodeLittleEndian(b) < Power256(|b|) && EncodeLittleEndian(DecodeLittleEndian(b), |b|) == b
  {
    if b != [] {
      EncodeDecode(b[1..]);
      LowByteOf(b[0], DecodeLittleEndian(b[1..]));
      assert b == [b[0]] + b[1..];
    }
  }

  lemma LowByteOf(low: Byte, rest: nat)
    ensures (low + 256 * rest) % 256 == low && (low + 256 * rest) / 256 == rest
  {
  }

  lemma EightBytes()
    ensures Power256(8) == TWO_TO_THE_64
  {
    assert Power256(1) == 0x100 && Power256(2) == 0x1_0000 && Power256(3) == 0x100_0000 && Power256(4) == 0x1_0000_0000;
    assert Power256(5) == 0x100_0000_0000 && Power256(6) == 0x1_0000_0000_0000 && Power256(7) == 0x100_0000_0000_0000;
  }

  // ----- Encoding and parsing -----

  /** PackSequenceAndType: (seq << 8) | t */
  function Pack(sequence: nat, kind: Byte): nat {
    sequence * 256 + kind
  }

  function Footer(sequence: nat, kind: Byte): (r: Bytes)
    ensures |r| == NUM_INTERNAL_BYTES
  {
    EncodeLittleEndian(Pack(sequence, kind), NUM_INTERNAL_BYTES)
  }

  /** AppendInternalKey */
  function Append(prefix: Bytes, key: ParsedInternalKey): Bytes {
    prefix + key.userKey + Footer(key.sequence, key.kind)
  }

  function Encode(key: ParsedInternalKey): Bytes {
    Append([], key)
  }

  function ExtractUserKey(ikey: Bytes): Bytes
    requires |ikey| >= NUM_INTERNAL_BYTES
  {
    ikey[..|ikey| - NUM_INTERNAL_BYTES]
  }

  /** ExtractInternalKeyFooter */
  function ExtractFooter(ikey: Bytes): nat
    requires |ikey| >= NUM_INTERNAL_BYTES
  {
    DecodeLittleEndian(ikey[|ikey| - NUM_INTERNAL_BYTES..])
  }

  function ExtractValueType(ikey: Bytes): Byte
    requires |ikey| >= NUM_INTERNAL_BYTES
  {
    ExtractFooter(ikey) % 256
  }

  /** ParseInternalKey */
  function Parse(ikey: Bytes): ParseResult {
    if |ikey| < NUM_INTERNAL_BYTES then Corruption("Internal Key too small")
    else
      var num := ExtractFooter(ikey);
      var key := ParsedInternalKey(ExtractUserKey(ikey), num / 256, num % 256);
      if IsExtendedValueType(key.kind) then Parsed(key) else Corruption("Invalid Key Type")
  }

  lemma FooterValue(sequence: nat, kind: Byte)
    requires sequence <= MAX_SEQUENCE
    ensures DecodeLittleEndian(Footer(sequence, kind)) == Pack(sequence, kind)
  {
    EightBytes();
    DecodeEncode(Pack(sequence, kind), NUM_INTERNAL_BYTES);
  }

  /** The user key and the footer of an encoded key, which `FooterValue` evaluates. */
  lemma PartsOfEncoded(key: ParsedInternalKey)
    ensures |Encode(key)| == |key.userKey| + NUM_INTERNAL_BYTES && ExtractUserKey(Encode(key)) == key.userKey
    ensures ExtractFooter(Encode(key)) == DecodeLittleEndian(Footer(key.sequence, key.kind))
  {
    hide DecodeLittleEndian, Footer;
    var e := Encode(key);
    assert e[|e| - NUM_INTERNAL_BYTES..] == Footer(key.sequence, key.kind);
  }

  /** Parsing undoes appending. */
  lemma ParseUndoesAppend(key: ParsedInternalKey)
    requires key.Valid()
    ensures Parse(Encode(key)) == Parsed(key)
  {
    PartsOfEncoded(key);
    FooterValue(key.sequence, key.kind);
  }

  /** What parses was appended: no two byte strings parse to the same key, and only valid keys come out. */
  lemma AppendUndoesParse(ikey: Bytes)
    requires Parse(ikey).Parsed?
    ensures Parse(ikey).key.Valid() && Encode(Parse(ikey).key) == ikey
  {
    hide DecodeLittleEndian, EncodeLittleEndian, Footer;
    var tail := ikey[|ikey| - NUM_INTERNAL_BYTES..];
    FooterOfTail(tail);
    assert ikey == ExtractUserKey(ikey) + tail;
  }

  lemma FooterOfTail(tail: Bytes)
    requires |tail| == NUM_INTERNAL_BYTES
    ensures var num := DecodeLittleEndian(tail); num / 256 <= MAX_SEQUENCE && Footer(num / 256, num % 256) == tail
  {
    EightBytes();
    EncodeDecode(tail);
    var num := DecodeLittleEndian(tail);
    assert Pack(num / 256, num % 256) == num;
  }

  /** Parsing fails exactly on what cannot be the encoding of a valid key. */
  lemma ParseFailsExactly(ikey: Bytes)
    ensures Parse(ikey).Corruption? <==> forall key: ParsedInternalKey | key.Valid() :: Encode(key) != ikey
  {
    if Parse(ikey).Corruption? {
      forall key: ParsedInternalKey | key.Valid()
        ensures Encode(key) != ikey
      {
        ParseUndoesAppend(key);
      }
    } else {
      AppendUndoesParse(ikey);
    }
  }

  function ShiftedRight(v: nat, bytes: nat): nat {
    if bytes == 0 then v else ShiftedRight(v / 256, bytes - 1)
  }

  /** The bytes of a number stand from low to high. */
  lemma {:induction false} ByteOf(v: nat, n: nat, i: nat)
    requires i < n
    ensures EncodeLittleEndian(v, n)[i] == ShiftedRight(v, i) % 256
  {
    if i > 0 {
      ByteOf(v / 256, n - 1, i - 1);
    }
  }

  /** The first byte of the footer is the type, and the other seven are the sequence number, low byte first. */
  lemma FooterBytes(sequence: nat, kind: Byte)
    ensures Footer(sequence, kind)[0] == kind
    ensures forall i | 0 < i < 8 :: Footer(sequence, kind)[i] == ShiftedRight(sequence, i - 1) % 256
  {
    assert Pack(sequence, kind) / 256 == sequence && Pack(sequence, kind) % 256 == kind;
    forall i | 0 < i < 8
      ensures Footer(sequence, kind)[i] == ShiftedRight(sequence, i - 1) % 256
    {
      ByteOf(sequence, 7, i - 1);
    }
  }

  /** What parses: at least eight bytes, of which the last eight start with the code of a deletion, a value, a merge, a
      single deletion, a range deletion, a blob index or a deletion with timestamp. */
  lemma ParsesExactly(ikey: Bytes)
    ensures Parse(ikey).Parsed?
            <==> |ikey| >= 8 && ikey[|ikey| - 8] in {0x0, 0x1, 0x2, 0x7, 0xF, 0x11, 0x14}
    ensures Parse(ikey).Parsed? ==>
              Parse(ikey).key.kind == ikey[|ikey| - 8] && Parse(ikey).key.userKey == ikey[..|ikey| - 8]
  {
    if |ikey| >= 8 {
      var tail := ikey[|ikey| - 8..];
      assert ExtractFooter(ikey) == tail[0] + 256 * DecodeLittleEndian(tail[1..]);
    }
  }

  /** UpdateInternalKey overwrites the footer in place. */
  method UpdateInternalKey(ikey: array<Byte>, sequence: nat, kind: Byte)
    requires ikey.Length >= NUM_INTERNAL_BYTES && sequence <= MAX_SEQUENCE
    modifies ikey
    ensures ikey[..] == Encode(ParsedInternalKey(old(ExtractUserKey(ikey[..])), sequence, kind))
  {
    var footer := Footer(sequence, kind);
    var start := ikey.Length - NUM_INTERNAL_BYTES;
    var i := 0;
    while i < NUM_INTERNAL_BYTES
      invariant 0 <= i <= NUM_INTERNAL_BYTES
      invariant ikey[..start] == old(ikey[..start]) && ikey[start..start + i] == footer[..i]
    {
      ikey[start + i] := footer[i];
      i := i + 1;
    }
    assert ikey[..] == ikey[..start] + ikey[start..];
    assert ikey[start..] == footer;
  }

  // ----- Comparators -----

  type Comparator = (Bytes, Bytes) -> int

  function Sign(x: int): int {
    if x < 0 then -1 else if x > 0 then 1 else 0
  }

  /** What the documentation of Comparator asks for: a total order on user keys. */
  ghost predicate IsComparator(cmp: Comparator) {
    && (forall a :: cmp(a, a) == 0)
    && (forall a, b :: Sign(cmp(a, b)) == -Sign(cmp(b, a)))
    && (forall a, b, c :: cmp(a, b) <= 0 && cmp(b, c) <= 0 ==> cmp(a, c) <= 0)
  }

  function CompareNumbers(a: nat, b: nat): int {
    if a > b then -1 else if a < b then 1 else 0
  }

  /** InternalKeyComparator::Compare on encoded keys */
  function Compare(cmp: Comparator, a: Bytes, b: Bytes): int
    requires |a| >= NUM_INTERNAL_BYTES && |b| >= NUM_INTERNAL_BYTES
  {
    var r := cmp(ExtractUserKey(a), ExtractUserKey(b));
    if r == 0 then CompareNumbers(ExtractFooter(a), ExtractFooter(b)) else r
  }

  /** InternalKeyComparator::CompareKeySeq */
  function CompareKeySeq(cmp: Comparator, a: Bytes, b: Bytes): int
    requires |a| >= NUM_INTERNAL_BYTES && |b| >= NUM_INTERNAL_BYTES
  {
    var r := cmp(ExtractUserKey(a), ExtractUserKey(b));
    if r == 0 then CompareNumbers(ExtractFooter(a) / 256, ExtractFooter(b) / 256) else r
  }

  /** InternalKeyComparator::Compare on parsed keys */
  function CompareParsed(cmp: Comparator, a: ParsedInternalKey, b: ParsedInternalKey): int {
    var r := cmp(a.userKey, b.userKey);
    if r != 0 then r
    else if a.sequence > b.sequence then -1
    else if a.sequence < b.sequence then 1
    else if a.kind > b.kind then -1
    else if a.kind < b.kind then 1
    else 0
  }

  function FooterWith(ikey: Bytes, globalSeqno: nat): nat
    requires |ikey| >= NUM_INTERNAL_BYTES
  {
    if globalSeqno == DISABLE_GLOBAL_SEQUENCE then ExtractFooter(ikey) else Pack(globalSeqno, ExtractValueType(ikey))
  }

  /** InternalKeyComparator::Compare with global sequence numbers */
  function CompareGlobal(cmp: Comparator, a: Bytes, aGlobal: nat, b: Bytes, bGlobal: nat): int
    requires |a| >= NUM_INTERNAL_BYTES && |b| >= NUM_INTERNAL_BYTES
  {
    var r := cmp(ExtractUserKey(a), ExtractUserKey(b));
    if r == 0 then CompareNumbers(FooterWith(a, aGlobal), FooterWith(b, bGlobal)) else r
  }

  /** The encoded and the parsed comparison agree. */
  lemma EncodedAgreesWithParsed(cmp: Comparator, a: ParsedInternalKey, b: ParsedInternalKey)
    requires a.sequence <= MAX_SEQUENCE && b.sequence <= MAX_SEQUENCE
    ensures |Encode(a)| >= NUM_INTERNAL_BYTES && |Encode(b)| >= NUM_INTERNAL_BYTES
    ensures Compare(cmp, Encode(a), Encode(b)) == CompareParsed(cmp, a, b)
  {
    PartsOfEncoded(a);
    PartsOfEncoded(b);
    FooterValue(a.sequence, a.kind);
    FooterValue(b.sequence, b.kind);
  }

  /** A key with its sequence number overridden. */
  function Overridden(ikey: Bytes, globalSeqno: nat): Bytes
    requires |ikey| >= NUM_INTERNAL_BYTES
  {
    if globalSeqno == DISABLE_GLOBAL_SEQUENCE then ikey
    else Encode(ParsedInternalKey(ExtractUserKey(ikey), globalSeqno, ExtractValueType(ikey)))
  }

  predicate IsGlobalSeqno(g: nat) {
    g <= MAX_SEQUENCE || g == DISABLE_GLOBAL_SEQUENCE
  }

  /** Comparing with global sequence numbers is comparing the keys updated with them. */
  lemma GlobalAgreesWithUpdated(cmp: Comparator, a: Bytes, aGlobal: nat, b: Bytes, bGlobal: nat)
    requires |a| >= NUM_INTERNAL_BYTES && |b| >= NUM_INTERNAL_BYTES && IsGlobalSeqno(aGlobal) && IsGlobalSeqno(bGlobal)
    ensures |Overridden(a, aGlobal)| == |a| && |Overridden(b, bGlobal)| == |b|
    ensures CompareGlobal(cmp, a, aGlobal, b, bGlobal) == Compare(cmp, Overridden(a, aGlobal), Overridden(b, bGlobal))
  {
    PartsOfOverridden(a, aGlobal);
    PartsOfOverridden(b, bGlobal);
  }

  lemma PartsOfOverridden(a: Bytes, g: nat)
    requires |a| >= NUM_INTERNAL_BYTES && IsGlobalSeqno(g)
    ensures |Overridden(a, g)| == |a| && ExtractUserKey(Overridden(a, g)) == ExtractUserKey(a)
    ensures ExtractFooter(Overridden(a, g)) == FooterWith(a, g)
  {
    if g != DISABLE_GLOBAL_SEQUENCE {
      PartsOfEncoded(ParsedInternalKey(ExtractUserKey(a), g, ExtractValueType(a)));
      FooterValue(g, ExtractValueType(a));
    }
  }

  /** Encoded keys are totally ordered. */
  lemma CompareIsTotalOrder(cmp: Comparator, a: Bytes, b: Bytes, c: Bytes)
    requires IsComparator(cmp)
    requires |a| >= NUM_INTERNAL_BYTES && |b| >= NUM_INTERNAL_BYTES && |c| >= NUM_INTERNAL_BYTES
    ensures Compare(cmp, a, a) == 0 && Sign(Compare(cmp, a, b)) == -Sign(Compare(cmp, b, a))
    ensures Compare(cmp, a, b) <= 0 && Compare(cmp, b, c) <= 0 ==> Compare(cmp, a, c) <= 0
    ensures Compare(cmp, a, b) == 0
            <==> cmp(ExtractUserKey(a), ExtractUserKey(b)) == 0 && ExtractFooter(a) == ExtractFooter(b)
  {
    var x, y, z := ExtractUserKey(a), ExtractUserKey(b), ExtractUserKey(c);
    assert Sign(cmp(x, y)) == -Sign(cmp(y, x)) && Sign(cmp(y, z)) == -Sign(cmp(z, y))
        && Sign(cmp(x, z)) == -Sign(cmp(z, x));
    assert cmp(z, x) <= 0 && cmp(x, y) <= 0 ==> cmp(z, y) <= 0;
    assert cmp(y, z) <= 0 && cmp(z, x) <= 0 ==> cmp(y, x) <= 0;
  }

  /** Leaving out the type coarsens the order, and merges only keys that differ in nothing else. */
  lemma KeySeqCoarsens(cmp: Comparator, a: Bytes, b: Bytes)
    requires |a| >= NUM_INTERNAL_BYTES && |b| >= NUM_INTERNAL_BYTES
    ensures CompareKeySeq(cmp, a, b) < 0 ==> Compare(cmp, a, b) < 0
    ensures CompareKeySeq(cmp, a, b) > 0 ==> Compare(cmp, a, b) > 0
    ensures CompareKeySeq(cmp, a, b) == 0
            <==> cmp(ExtractUserKey(a), ExtractUserKey(b)) == 0 && ExtractFooter(a) / 256 == ExtractFooter(b) / 256
  {
  }

  // ----- Smallest and largest keys of a user key -----

  /** SetMinPossibleForUserKey and SetMaxPossibleForUserKey */
  function MinPossible(userKey: Bytes): ParsedInternalKey {
    ParsedInternalKey(userKey, MAX_SEQUENCE, TYPE_FOR_SEEK)
  }

  function MaxPossible(userKey: Bytes): ParsedInternalKey {
    ParsedInternalKey(userKey, 0, 0)
  }

  /** They bound every internal key of the user key, and both can be reached. */
  lemma BoundsOfUserKey(cmp: Comparator, key: ParsedInternalKey, userKey: Bytes)
    requires IsComparator(cmp) && key.Valid()
    ensures MinPossible(userKey).Valid() && MaxPossible(userKey).Valid()
    ensures CompareParsed(cmp, MinPossible(userKey), key) <= 0 <= CompareParsed(cmp, MaxPossible(userKey), key)
            <==> cmp(userKey, key.userKey) == 0
  {
  }

  /** RangeTombstone::SerializeEndKey */
  function SerializedEndKey(endKey: Bytes): ParsedInternalKey {
    ParsedInternalKey(endKey, MAX_SEQUENCE, TYPE_RANGE_DELETION)
  }

  /** The comment on SerializeEndKey promises that its key compares less than any other key of the same user key. That
      is so exactly for the keys that do not have the maximal sequence number together with a type of 0xF or more. */
  lemma EndKeyIsBelow(cmp: Comparator, key: ParsedInternalKey, endKey: Bytes)
    requires IsComparator(cmp) && key.Valid() && cmp(endKey, key.userKey) == 0
    ensures CompareParsed(cmp, SerializedEndKey(endKey), key) < 0
            <==> !(key.sequence == MAX_SEQUENCE && key.kind >= TYPE_RANGE_DELETION)
  {
  }

  /** The key that seeks to the first entry of a user key is such a key. */
  lemma EndKeyIsAboveSeekKey(cmp: Comparator, endKey: Bytes)
    requires IsComparator(cmp)
    ensures MinPossible(endKey).Valid() && MinPossible(endKey) != SerializedEndKey(endKey)
    ensures CompareParsed(cmp, SerializedEndKey(endKey), MinPossible(endKey)) > 0
  {
  }
}
