// The encoder of a uboot-fit board's record copies (src/image/fit-environment.ts), proved against the C reader of
// BootRecords: the two agree on which records are valid, and the reader recovers exactly what was encoded.
module FitEnvironment {
  import opened Buffers
  import opened Wrappers
  import opened Bytes
  import opened BootRecords
  import Crc32

  const ENVIRONMENT_BYTES := 65536

  datatype FitBootRecord = FitBootRecord(id: string, kernelId: string, generation: int, tries: Option<int>)

  datatype Error = InvalidBounds | InvalidRecord | ExceedsBound

  predicate IsHexChar(c: char) {
    '0' <= c <= '9' || 'a' <= c <= 'f'
  }

  predicate IsIdString(s: string) {
    |s| == 64 && forall i | 0 <= i < |s| :: IsHexChar(s[i])
  }

  lemma IdStringExactly(s: string)
    ensures IsIdString(s) <==> |s| == 64 && forall i | 0 <= i < 64 :: s[i] in "0123456789abcdef"
  {
    forall c: char ensures IsHexChar(c) <==> c in "0123456789abcdef" {
      HexChar(c);
    }
  }

  lemma HexChar(c: char)
    ensures IsHexChar(c) <==> c in "0123456789abcdef"
  {
    var a := "0123456789abcdef";
    if '0' <= c <= '9' {
      assert a[c as int - '0' as int] == c;
    }
    if 'a' <= c <= 'f' {
      assert a[c as int - 'a' as int + 10] == c;
    }
  }

  function Code(c: char): byte
    requires c < 128 as char
  {
    c as int
  }

  function IdBytes(s: string): (b: seq<byte>)
    requires IsIdString(s)
    ensures IsId(b)
    ensures forall i | 0 <= i < 64 :: b[i] == s[i] as int
  {
    seq<byte>(64, i requires 0 <= i < 64 => Code(s[i]))
  }

  lemma IdBytesInjective(s: string, t: string)
    requires IsIdString(s) && IsIdString(t)
    ensures IdBytes(s) == IdBytes(t) <==> s == t
  {
    if IdBytes(s) == IdBytes(t) {
      forall i | 0 <= i < 64 ensures s[i] == t[i] {
        assert IdBytes(s)[i] == IdBytes(t)[i];
      }
    }
  }

  predicate WellTyped(r: FitBootRecord) {
    IsIdString(r.id) && IsIdString(r.kernelId) && r.generation >= 0
  }

  // The record as the C code holds it: null tries are -1.
  function AsRecord(r: FitBootRecord): Record
    requires WellTyped(r)
  {
    Record(IdBytes(r.id), IdBytes(r.kernelId), r.generation, if r.tries.None? then -1 else r.tries.value)
  }

  function AsRecords(rs: seq<FitBootRecord>): (r: seq<Record>)
    requires forall i | 0 <= i < |rs| :: WellTyped(rs[i])
    ensures |r| == |rs| && forall i | 0 <= i < |rs| :: r[i] == AsRecord(rs[i])
  {
    seq<Record>(|rs|, i requires 0 <= i < |rs| => AsRecord(rs[i]))
  }

  // What the loader reads as valid records, said of the encoder's input; tries that are given are not negative.
  ghost predicate Readable(rs: seq<FitBootRecord>) {
    && (forall i | 0 <= i < |rs| :: WellTyped(rs[i]))
    && ValidRecords(AsRecords(rs))
    && forall i | 0 <= i < |rs| :: rs[i].tries.Some? ==> rs[i].tries.value >= 0
  }

  // The four bytes of the CRC over a buffer.
  function CrcBytes(s: seq<byte>): (b: seq<byte>)
    ensures |b| == 4
  {
    Crc32.Octets(Crc32.LittleEndian(Crc32.EnvironmentCrc(Crc32.BitVectors(s))))
  }

  // A copy with a correct CRC, a flag and the entry of these records, padded with zeros.
  ghost predicate Encodes(copy: seq<byte>, rs: seq<Record>, flag: int)
    requires ValidRecords(rs)
  {
    && |copy| == 65536
    && copy[..4] == CrcBytes(copy[5..])
    && copy[4] == flag
    && |Text(rs)| <= VALUE_LIMIT
    && copy[5..] == ENV_KEY + Text(rs) + Zeros(65536 - ENV_VALUE_OFFSET - |Text(rs)|)
  }

  predicate Acceptable(r: FitBootRecord) {
    && IsIdString(r.id) && IsIdString(r.kernelId)
    && 0 < r.generation <= GENERATION_LIMIT
    && (r.tries.Some? ==> 0 <= r.tries.value <= 3)
  }

  lemma AcceptableIsValid(r: FitBootRecord)
    ensures Acceptable(r) <==> WellTyped(r) && ValidRecord(AsRecord(r)) && (r.tries.Some? ==> r.tries.value >= 0)
  {
  }

  predicate Follows(previous: FitBootRecord, r: FitBootRecord) {
    previous.id != r.id && previous.generation > r.generation
  }

  lemma ChecksAreReadable(rs: seq<FitBootRecord>)
    requires 1 <= |rs| <= 2
    ensures Readable(rs) <==>
            (forall i | 0 <= i < |rs| :: Acceptable(rs[i])) && (forall i, j | 0 <= i < j < |rs| :: Follows(rs[i], rs[j]))
  {
    AcceptableIsValid(rs[0]);
    if |rs| == 2 {
      AcceptableIsValid(rs[1]);
      if Acceptable(rs[0]) && Acceptable(rs[1]) {
        IdBytesInjective(rs[0].id, rs[1].id);
        assert GoesBefore(AsRecord(rs[0]), AsRecord(rs[1])) <==> Follows(rs[0], rs[1]);
      }
    }
  }

  // The per-record checks, in the order of the source.
  method Check(rs: seq<FitBootRecord>) returns (ok: bool)
    requires 1 <= |rs| <= 2
    ensures ok <==> Readable(rs)
  {
    ChecksAreReadable(rs);
    for i := 0 to |rs|
      invariant forall k | 0 <= k < i :: Acceptable(rs[k])
      invariant forall j, k | 0 <= j < k < i :: Follows(rs[j], rs[k])
    {
      if !Acceptable(rs[i]) {
        return false;
      }
      for j := 0 to i
        invariant forall k | 0 <= k < j :: Follows(rs[k], rs[i])
      {
        if rs[j].id == rs[i].id || rs[j].generation <= rs[i].generation {
          assert !Follows(rs[j], rs[i]);
          return false;
        }
      }
    }
    ok := true;
  }

  method EncodeFitEnvironment(records: seq<FitBootRecord>, flag: int) returns (r: Result<array<byte>, Error>)
    ensures r.Ok? <==> Readable(records) && 0 <= flag <= 255
    ensures r.Ok? ==> fresh(r.value) && Encodes(r.value[..], AsRecords(records), flag)
  {
    if |records| == 0 || |records| > 2 || flag < 0 || flag > 255 {
      return Err(InvalidBounds);
    }
    var ok := Check(records);
    if !ok {
      return Err(InvalidRecord);
    }
    hide Text, Readable;
    var rs := AsRecords(records);
    ReadableIsValid(records);
    TextLength(rs);
    var value := Text(rs);
    if |value| > 512 {
      return Err(ExceedsBound);
    }
    var bytes := EncodeValue(value, flag);
    r := Ok(bytes);
  }

  method EncodeValue(value: seq<byte>, flag: byte) returns (bytes: array<byte>)
    requires |value| <= VALUE_LIMIT
    ensures fresh(bytes) && bytes.Length == ENVIRONMENT_BYTES
    ensures bytes[..4] == CrcBytes(bytes[5..]) && bytes[4] == flag
    ensures bytes[5..] == ENV_KEY + value + Zeros(ENVIRONMENT_BYTES - ENV_VALUE_OFFSET - |value|)
  {
    bytes := new byte[ENVIRONMENT_BYTES](_ => 0);
    bytes[4] := flag;
    StoreEntry(bytes, ENV_KEY + value);
    var crc := Crc32.FeedLoop(Crc32.BitVectors(bytes[5..]));
    StoreCrc(bytes, Crc32.Octets(Crc32.LittleEndian(!crc)));
  }

  method StoreEntry(bytes: array<byte>, entry: seq<byte>)
    requires 5 + |entry| <= bytes.Length && forall i | 5 <= i < bytes.Length :: bytes[i] == 0
    modifies bytes
    ensures bytes[4] == old(bytes[4])
    ensures bytes[5..] == entry + Zeros(bytes.Length - 5 - |entry|)
  {
    ghost var head, tail := bytes[..5], bytes[5 + |entry|..];
    Overwrite(bytes, 5, entry);
    assert bytes[..5] == head && bytes[..5][4] == head[4];
    assert bytes[5 + |entry|..] == tail == Zeros(bytes.Length - 5 - |entry|);
    assert bytes[5..] == bytes[5..5 + |entry|] + bytes[5 + |entry|..];
  }

  method StoreCrc(bytes: array<byte>, stored: seq<byte>)
    requires |stored| == 4 && bytes.Length >= 5
    modifies bytes
    ensures bytes[..4] == stored && bytes[4] == old(bytes[4]) && bytes[5..] == old(bytes[5..])
  {
    Overwrite(bytes, 0, stored);
    assert bytes[4..][0] == bytes[4] && bytes[4..][1..] == bytes[5..];
  }

  lemma ReadableIsValid(rs: seq<FitBootRecord>)
    requires Readable(rs)
    ensures (forall i | 0 <= i < |rs| :: WellTyped(rs[i])) && ValidRecords(AsRecords(rs))
  {
  }

  // Whatever the encoder accepts, the loader's reader finds the entry and parses from it exactly the records encoded.
  lemma ReadsBack(copy: seq<byte>, rs: seq<Record>, flag: int)
    requires ValidRecords(rs) && Encodes(copy, rs, flag)
    ensures HoldsEntry(copy, Text(rs))
    ensures CString(copy[ENV_VALUE_OFFSET..]) == Text(rs)
    ensures Parse(CString(copy[ENV_VALUE_OFFSET..])) == Some(rs)
  {
    hide Text, CString, Parse;
    TextLength(rs);
    TextHasNoZero(rs);
    EntryIsTheString(copy, Text(rs));
    ParseIsExact(Text(rs), rs);
  }

  lemma TextHasNoZero(rs: seq<Record>)
    requires ValidRecords(rs)
    ensures 0 !in Text(rs)
  {
    CRecordTextLength(rs[0]);
    if |rs| == 2 {
      CRecordTextLength(rs[1]);
      assert ListText(rs[1..]) == RecordText(rs[1]);
    }
  }

  // The whole way, as the image producer and the loader run it.
  method EncodeAndRead(records: seq<FitBootRecord>, flag: int, out: Records) returns (r: Result<array<byte>, Error>)
    requires out.entry.Length == RECORD_LIMIT
    modifies out, out.entry
    ensures r.Ok? <==> Readable(records) && 0 <= flag <= 255
    ensures r.Ok? ==> out.Valid() && out.Contents() == AsRecords(records)
  {
    hide Parse, CString, Readable;
    r := EncodeFitEnvironment(records, flag);
    if r.Ok? {
      ReadableIsValid(records);
      ghost var rs := AsRecords(records);
      ReadsBack(r.value[..], rs, flag);
      var offset := EnvValue(r.value[..]);
      EntryIsTheString(r.value[..], Text(rs));
      EntryAtOffset(r.value[..], offset.value, Text(rs));
      var parsed := ParseInto(r.value[..][offset.value..], out);
    }
  }

  lemma EntryAtOffset(copy: seq<byte>, offset: nat, value: seq<byte>)
    requires HoldsEntry(copy, value) && offset < |copy|
    requires HoldsEntry(copy, CString(copy[offset..]))
    ensures CString(copy[offset..]) == value
  {
    EntryIsTheString(copy, value);
    EntryIsTheString(copy, CString(copy[offset..]));
  }
}
