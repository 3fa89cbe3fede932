// The boot record codec of common/uboot/mica-records.h: the reader and writer of the text a record copy holds, the
// one entry of a redundant-environment copy, and the choice between two copies. Read-only C memory is a sequence of
// bytes; the records a caller passes in to be filled are an object.
module BootRecords {
  import opened Wrappers
  import opened Bytes
  import opened Decimal

  const RECORD_LIMIT := 2
  const VALUE_LIMIT := 512
  const GENERATION_LIMIT := 9007199254740991

  const COMMA: byte := 0x2c
  const DASH: byte := 0x2d
  const SEMICOLON: byte := 0x3b
  const HEADER: seq<byte> := [0x76, 0x31, 0x7c] // v1|

  // One record; tries is -1 for a record that is not on trial.
  datatype Record = Record(id: seq<byte>, kernel: seq<byte>, generation: nat, tries: int)

  /* -------- The text of valid records -------- */

  predicate IsDigit(b: byte) {
    0x30 <= b <= 0x39
  }

  predicate IsHexDigit(b: byte) {
    IsDigit(b) || 0x61 <= b <= 0x66
  }

  predicate IsId(s: seq<byte>) {
    |s| == 64 && forall i | 0 <= i < |s| :: IsHexDigit(s[i])
  }

  // The digits 0 to 9 and the letters a to f, 64 of them.
  lemma IdExactly(s: seq<byte>)
    ensures IsId(s) <==> |s| == 64 && forall i | 0 <= i < 64 :: s[i] in Ascii("0123456789abcdef")
  {
    HexAlphabet();
    hide Ascii;
  }

  predicate ValidRecord(r: Record) {
    IsId(r.id) && IsId(r.kernel) && 1 <= r.generation <= GENERATION_LIMIT && -1 <= r.tries <= 3
  }

  predicate GoesBefore(r: Record, s: Record) {
    r.id != s.id && r.generation > s.generation
  }

  predicate ValidRecords(rs: seq<Record>) {
    && 1 <= |rs| <= RECORD_LIMIT
    && (forall i {:trigger rs[i]} | 0 <= i < |rs| :: ValidRecord(rs[i]))
    && (forall i, j | 0 <= i < j < |rs| :: GoesBefore(rs[i], rs[j]))
  }

  function DigitByte(d: digit): byte {
    0x30 + d
  }

  // A number as printf's %llu writes it.
  function Digits(n: nat): (s: seq<byte>)
    ensures |s| == |Numeral(n)| > 0
  {
    var ds := Numeral(n);
    seq<byte>(|ds|, i requires 0 <= i < |ds| => DigitByte(ds[i]))
  }

  function TriesByte(tries: int): byte
    requires -1 <= tries <= 3
  {
    if tries < 0 then DASH else 0x30 + tries
  }

  function RecordText(r: Record): seq<byte>
    requires -1 <= r.tries <= 3
  {
    r.id + [COMMA] + r.kernel + [COMMA] + Digits(r.generation) + [COMMA] + [TriesByte(r.tries)]
  }

  function ListText(rs: seq<Record>): (s: seq<byte>)
    requires forall i {:trigger rs[i]} | 0 <= i < |rs| :: -1 <= rs[i].tries <= 3
    ensures rs != [] ==> s != []
  {
    if rs == [] then []
    else if |rs| == 1 then RecordText(rs[0])
    else RecordText(rs[0]) + [SEMICOLON] + ListText(rs[1..])
  }

  function Text(rs: seq<Record>): seq<byte>
    requires forall i {:trigger rs[i]} | 0 <= i < |rs| :: -1 <= rs[i].tries <= 3
  {
    HEADER + ListText(rs)
  }

  /* -------- Reading a text -------- */

  function TakeId(s: seq<byte>): Option<(seq<byte>, seq<byte>)> {
    if |s| >= 65 && s[64] == COMMA && IsId(s[..64]) then Some((s[..64], s[65..])) else None
  }

  function DigitRun(s: seq<byte>): (n: nat)
    ensures n <= |s|
    ensures forall i | 0 <= i < n :: IsDigit(s[i])
    ensures n < |s| ==> !IsDigit(s[n])
  {
    if s == [] || !IsDigit(s[0]) then 0 else 1 + DigitRun(s[1..])
  }

  function DigitValues(s: seq<byte>): (ds: seq<digit>)
    requires forall i | 0 <= i < |s| :: IsDigit(s[i])
    ensures |ds| == |s|
    ensures forall i | 0 <= i < |s| :: ds[i] as int + 0x30 == s[i] as int
  {
    seq<digit>(|s|, i requires 0 <= i < |s| => DigitValue(s[i]))
  }

  function DigitValue(b: byte): digit
    requires IsDigit(b)
  {
    b - 0x30
  }

  function TakeGeneration(s: seq<byte>): Option<(nat, seq<byte>)> {
    if s == [] || !(0x31 <= s[0] <= 0x39) then None
    else
      var n := DigitRun(s);
      var v := Value(DigitValues(s[..n]));
      if v > GENERATION_LIMIT then None else Some((v, s[n..]))
  }

  function TakeTries(s: seq<byte>): Option<(int, seq<byte>)> {
    if |s| < 2 || s[0] != COMMA then None
    else if s[1] == DASH then Some((-1, s[2..]))
    else if 0x30 <= s[1] <= 0x33 then Some((s[1] - 0x30, s[2..]))
    else None
  }

  function TakeRecord(s: seq<byte>): (r: Option<(Record, seq<byte>)>)
    ensures r.Some? ==> |r.value.1| < |s|
  {
    match TakeId(s)
    case None => None
    case Some((id, s1)) =>
      match TakeId(s1)
      case None => None
      case Some((kernel, s2)) =>
        match TakeGeneration(s2)
        case None => None
        case Some((generation, s3)) =>
          match TakeTries(s3)
          case None => None
          case Some((tries, s4)) => Some((Record(id, kernel, generation, tries), s4))
  }

  // The records of the rest of a text, after those already read.
  function TakeList(read: seq<Record>, s: seq<byte>): Option<seq<Record>>
    decreases |s|
  {
    if |read| == RECORD_LIMIT then None
    else
      match TakeRecord(s)
      case None => None
      case Some((r, rest)) =>
        if exists i | 0 <= i < |read| :: !GoesBefore(read[i], r) then None
        else if rest == [] then Some(read + [r])
        else if rest[0] != SEMICOLON || |rest| == 1 then None
        else TakeList(read + [r], rest[1..])
  }

  function Parse(text: seq<byte>): Option<seq<Record>> {
    if |text| < 4 || |text| > VALUE_LIMIT || text[..3] != HEADER then None else TakeList([], text[3..])
  }

  /* -------- Reading inverts writing -------- */

  lemma {:induction false} DigitRunOf(s: seq<byte>, n: nat)
    requires n <= |s|
    requires forall i | 0 <= i < n :: IsDigit(s[i])
    requires n < |s| ==> !IsDigit(s[n])
    ensures DigitRun(s) == n
  {
    if n > 0 {
      DigitRunOf(s[1..], n - 1);
    }
  }

  lemma TakeGenerationText(g: nat, rest: seq<byte>)
    requires 1 <= g && rest != [] && rest[0] == COMMA
    ensures TakeGeneration(Digits(g) + rest) == if g <= GENERATION_LIMIT then Some((g, rest)) else None
  {
    var s, n := Digits(g) + rest, |Digits(g)|;
    ValueNumeral(g);
    assert s[0] == DigitByte(Numeral(g)[0]);
    forall i | 0 <= i < n ensures IsDigit(s[i]) {
      assert s[i] == DigitByte(Numeral(g)[i]);
    }
    DigitRunOf(s, n);
    assert s[..n] == Digits(g) && s[n..] == rest;
    assert DigitValues(s[..n]) == Numeral(g);
  }

  lemma GenerationTextTaken(s: seq<byte>)
    requires TakeGeneration(s).Some?
    ensures var (g, rest) := TakeGeneration(s).value;
            1 <= g <= GENERATION_LIMIT && s == Digits(g) + rest
  {
    var n := DigitRun(s);
    var ds := DigitValues(s[..n]);
    NumeralValue(ds);
    assert Digits(Value(ds)) == s[..n];
  }

  lemma TakeIdText(id: seq<byte>, rest: seq<byte>)
    requires IsId(id)
    ensures TakeId(id + [COMMA] + rest) == Some((id, rest))
  {
    var s := id + [COMMA] + rest;
    assert s[..64] == id && s[65..] == rest;
  }

  lemma TakeTriesText(tries: int, rest: seq<byte>)
    requires -1 <= tries <= 3
    ensures TakeTries([COMMA, TriesByte(tries)] + rest) == Some((tries, rest))
  {
    assert ([COMMA, TriesByte(tries)] + rest)[2..] == rest;
  }

  lemma TakeRecordText(r: Record, rest: seq<byte>)
    requires IsId(r.id) && IsId(r.kernel) && 1 <= r.generation && -1 <= r.tries <= 3
    ensures TakeRecord(RecordText(r) + rest) == if ValidRecord(r) then Some((r, rest)) else None
  {
    hide TakeId, TakeGeneration, TakeTries, Digits, IsId;
    var s3 := [COMMA, TriesByte(r.tries)] + rest;
    var s2 := Digits(r.generation) + s3;
    var s1 := r.kernel + [COMMA] + s2;
    assert RecordText(r) + rest == r.id + [COMMA] + s1;
    TakeIdText(r.id, s1);
    TakeIdText(r.kernel, s2);
    TakeGenerationText(r.generation, s3);
    TakeTriesText(r.tries, rest);
  }

  lemma IdTaken(s: seq<byte>)
    requires TakeId(s).Some?
    ensures var (id, rest) := TakeId(s).value; IsId(id) && s == id + [COMMA] + rest
  {
  }

  lemma TriesTaken(s: seq<byte>)
    requires TakeTries(s).Some?
    ensures var (tries, rest) := TakeTries(s).value; -1 <= tries <= 3 && s == [COMMA] + [TriesByte(tries)] + rest
  {
  }

  lemma RecordTaken(s: seq<byte>)
    requires TakeRecord(s).Some?
    ensures var (r, rest) := TakeRecord(s).value; ValidRecord(r) && s == RecordText(r) + rest
  {
    hide TakeId, TakeGeneration, TakeTries;
    var (id, s1) := TakeId(s).value;
    var (kernel, s2) := TakeId(s1).value;
    var (g, s3) := TakeGeneration(s2).value;
    var (t, s4) := TakeTries(s3).value;
    IdTaken(s);
    IdTaken(s1);
    GenerationTextTaken(s2);
    TriesTaken(s3);
    var r := Record(id, kernel, g, t);
    assert RecordText(r) + s4 == id + [COMMA] + (kernel + [COMMA] + (Digits(g) + ([COMMA] + [TriesByte(t)] + s4)));
  }

  lemma {:induction false} TakeListText(read: seq<Record>, rs: seq<Record>)
    requires ValidRecords(rs) && ValidRecords(read + rs)
    ensures TakeList(read, ListText(rs)) == Some(read + rs)
    decreases |rs|
  {
    hide TakeRecord, RecordText;
    var r, more := rs[0], rs[1..];
    forall i | 0 <= i < |read| ensures GoesBefore(read[i], r) {
      assert (read + rs)[i] == read[i] && (read + rs)[|read|] == r;
    }
    if more == [] {
      TakeRecordText(r, []);
      assert RecordText(r) + [] == RecordText(r);
      assert read + [r] == read + rs;
    } else {
      var rest := [SEMICOLON] + ListText(more);
      TakeRecordText(r, rest);
      assert ListText(rs) == RecordText(r) + rest;
      assert rest[1..] == ListText(more);
      assert read + [r] + more == read + rs;
      TakeListText(read + [r], more);
    }
  }

  lemma {:induction false} ListTaken(read: seq<Record>, s: seq<byte>)
    requires |read| == 0 || ValidRecords(read)
    requires TakeList(read, s).Some?
    ensures var all := TakeList(read, s).value;
            && |read| < |all| && all[..|read|] == read
            && ValidRecords(all) && s == ListText(all[|read|..])
    decreases |s|
  {
    hide TakeRecord, RecordText;
    RecordTaken(s);
    var (r, rest) := TakeRecord(s).value;
    var now := read + [r];
    forall i, j | 0 <= i < j < |now| ensures GoesBefore(now[i], now[j]) {
      if j == |read| {
        assert GoesBefore(read[i], r);
      }
    }
    if rest == [] {
      assert now[|read|..] == [r];
      assert s == RecordText(r);
    } else {
      ListTaken(now, rest[1..]);
      var all := TakeList(now, rest[1..]).value;
      assert all[..|read|] == now[..|read|] == read;
      assert all[|read|] == all[..|now|][|read|] == r;
      assert all[|read|..][1..] == all[|now|..];
      assert rest == [SEMICOLON] + rest[1..];
    }
  }

  // The parser accepts exactly the texts of valid records, and reads back the records the text was written from.
  lemma ParseIsExact(text: seq<byte>, rs: seq<Record>)
    ensures Parse(text) == Some(rs) <==> ValidRecords(rs) && text == Text(rs)
  {
    if ValidRecords(rs) {
      TakeListText([], rs);
      TextLength(rs);
      assert [] + rs == rs;
      assert Text(rs)[3..] == ListText(rs) && Text(rs)[..3] == HEADER;
    }
    if Parse(text) == Some(rs) {
      ListTaken([], text[3..]);
      assert rs[0..] == rs;
      assert text == text[..3] + text[3..];
    }
  }

  lemma {:induction false} RecordTextLength(r: Record, k: nat)
    requires |r.id| <= 64 && |r.kernel| <= 64 && -1 <= r.tries <= 3
    requires k > 0 && r.generation < Pow10(k)
    ensures |RecordText(r)| <= 132 + k
  {
    NumeralLength(r.generation, k);
  }

  // Two records, each of two ids, a 16-digit generation and its tries, take 300 of the 512 characters.
  lemma TextLength(rs: seq<Record>)
    requires ValidRecords(rs)
    ensures 4 <= |Text(rs)| <= 300
  {
    hide RecordText;
    SixteenDigits();
    RecordTextLength(rs[0], 16);
    if |rs| == 2 {
      RecordTextLength(rs[1], 16);
      assert ListText(rs[1..]) == RecordText(rs[1]);
    }
  }

  lemma SixteenDigits()
    ensures GENERATION_LIMIT < Pow10(16)
  {
    assert Pow10(4) == 10000;
    assert Pow10(8) == 100000000;
    assert Pow10(12) == 1000000000000;
  }

  /* -------- The C code -------- */

  // struct mica_boot_records.
  class Records {
    const entry: array<Record>
    var count: nat

    ghost predicate Valid()
      reads this
    {
      entry.Length == RECORD_LIMIT && count <= RECORD_LIMIT
    }

    ghost function Contents(): seq<Record>
      reads this, entry
      requires Valid()
    {
      entry[..count]
    }

    constructor ()
      ensures Valid() && fresh(entry) && Contents() == []
    {
      entry := new Record[RECORD_LIMIT](_ => Record([], [], 0, 0));
      count := 0;
    }

    // Whether an entry already read shares the record's id or does not exceed its generation.
    method Refuses(record: Record) returns (refused: bool)
      requires Valid()
      ensures refused <==> exists i | 0 <= i < count :: !GoesBefore(entry[i], record)
    {
      for i := 0 to count
        invariant forall k | 0 <= k < i :: GoesBefore(entry[k], record)
      {
        if entry[i].id == record.id || entry[i].generation <= record.generation {
          return true;
        }
      }
      refused := false;
    }
  }

  // The readable memory a C string lies in: its text up to the first zero byte.
  function CString(memory: seq<byte>): (text: seq<byte>)
    ensures |text| <= |memory| && text == memory[..|text|]
    ensures forall i | 0 <= i < |text| :: text[i] != 0
    ensures |text| < |memory| ==> memory[|text|] == 0
  {
    if memory == [] || memory[0] == 0 then [] else [memory[0]] + CString(memory[1..])
  }

  lemma {:induction false} CStringOf(memory: seq<byte>, n: nat)
    requires n <= |memory| && (n < |memory| ==> memory[n] == 0)
    requires forall i | 0 <= i < n :: memory[i] != 0
    ensures CString(memory) == memory[..n]
  {
    if n > 0 {
      CStringOf(memory[1..], n - 1);
      assert memory[..n] == [memory[0]] + memory[1..][..n - 1];
    }
  }

  method ParseId(text: seq<byte>, cursor: nat) returns (ok: bool, id: seq<byte>, p: nat)
    requires cursor <= |text|
    ensures ok ==> p <= |text| && TakeId(text[cursor..]) == Some((id, text[p..]))
    ensures !ok ==> TakeId(text[cursor..]).None?
  {
    p := cursor;
    if |text| - p < 65 || text[p + 64] != COMMA {
      return false, [], p;
    }
    for i := p to p + 64
      invariant forall k | p <= k < i :: IsHexDigit(text[k])
    {
      if !IsHexDigit(text[i]) {
        assert !IsHexDigit(text[cursor..][..64][i - p]);
        return false, [], p;
      }
    }
    id := text[p..p + 64];
    assert id == text[cursor..][..64] && text[cursor..][65..] == text[cursor + 65..];
    return true, id, p + 65;
  }

  lemma {:induction false} RunAtLeast(s: seq<byte>, n: nat)
    requires n <= |s| && forall i | 0 <= i < n :: IsDigit(s[i])
    ensures DigitRun(s) >= n
  {
    if n > 0 {
      RunAtLeast(s[1..], n - 1);
    }
  }

  // A longer run of digits is no smaller a number.
  lemma {:induction false} ValueGrows(ds: seq<digit>, n: nat)
    requires n <= |ds|
    ensures Value(ds[..n]) <= Value(ds)
    decreases |ds|
  {
    if n < |ds| {
      ValueGrows(ds[..|ds| - 1], n);
      assert ds[..|ds| - 1][..n] == ds[..n];
    } else {
      assert ds[..n] == ds;
    }
  }

  // The first n bytes of s are digits and denote g.
  predicate ReadsAs(s: seq<byte>, n: nat, g: nat) {
    && n <= |s|
    && (forall i | 0 <= i < n :: IsDigit(s[i]))
    && g == Value(DigitValues(s[..n]))
  }

  lemma ReadDigit(s: seq<byte>, n: nat, g: nat)
    requires ReadsAs(s, n, g) && n < |s| && IsDigit(s[n])
    ensures ReadsAs(s, n + 1, 10 * g + s[n] - 0x30)
  {
    assert DigitValues(s[..n + 1]) == DigitValues(s[..n]) + [DigitValue(s[n])];
    ValueSnoc(DigitValues(s[..n]), DigitValue(s[n]));
  }

  lemma ReadTooLarge(s: seq<byte>, n: nat, g: nat)
    requires ReadsAs(s, n, g) && g > GENERATION_LIMIT
    ensures TakeGeneration(s).None?
  {
    RunAtLeast(s, n);
    var ds := DigitValues(s[..DigitRun(s)]);
    ValueGrows(ds, n);
    assert ds[..n] == DigitValues(s[..n]);
  }

  lemma ReadAll(s: seq<byte>, n: nat, g: nat)
    requires ReadsAs(s, n, g) && 0 < n && s[0] != 0x30 && g <= GENERATION_LIMIT
    requires n < |s| ==> !IsDigit(s[n])
    ensures TakeGeneration(s) == Some((g, s[n..]))
  {
    DigitRunOf(s, n);
  }

  // The guard before each digit is exact: the number built so far stays within the limit, and the text is refused as
  // soon as, and only if, the whole number exceeds it.
  method ParseGeneration(text: seq<byte>, cursor: nat) returns (ok: bool, generation: nat, p: nat)
    requires cursor <= |text|
    ensures ok ==> p <= |text| && TakeGeneration(text[cursor..]) == Some((generation, text[p..]))
    ensures !ok ==> TakeGeneration(text[cursor..]).None?
  {
    p, generation := cursor, 0;
    if p == |text| || text[p] < 0x31 || text[p] > 0x39 {
      return false, 0, p;
    }
    ghost var s := text[cursor..];
    assert ReadsAs(s, 0, 0);
    hide ReadsAs, TakeGeneration;
    while p < |text| && 0x30 <= text[p] && text[p] <= 0x39
      invariant cursor <= p <= |text|
      invariant ReadsAs(s, p - cursor, generation) && generation <= GENERATION_LIMIT
      invariant p == cursor ==> p < |text| && 0x30 <= text[p] <= 0x39
    {
      var digit := text[p] - 0x30;
      ReadDigit(s, p - cursor, generation);
      p := p + 1;
      if generation > (GENERATION_LIMIT - digit) / 10 {
        ReadTooLarge(s, p - cursor, 10 * generation + digit);
        return false, 0, p;
      }
      generation := generation * 10 + digit;
    }
    ReadAll(s, p - cursor, generation);
    assert s[p - cursor..] == text[p..];
    ok := true;
  }

  lemma ListStep(read: seq<Record>, s: seq<byte>)
    ensures |read| == RECORD_LIMIT ==> TakeList(read, s).None?
    ensures TakeRecord(s).None? ==> TakeList(read, s).None?
    ensures |read| != RECORD_LIMIT && TakeRecord(s).Some? ==>
              var (r, rest) := TakeRecord(s).value;
              if exists i | 0 <= i < |read| :: !GoesBefore(read[i], r) then TakeList(read, s).None?
              else if rest == [] then TakeList(read, s) == Some(read + [r])
              else if rest[0] != SEMICOLON || |rest| == 1 then TakeList(read, s).None?
              else TakeList(read, s) == TakeList(read + [r], rest[1..])
  {
  }

  // The next entry filled in, unless it is one too many, malformed, or refused beside those before it.
  method FillEntry(text: seq<byte>, cursor: nat, out: Records) returns (ok: bool, ghost rest: seq<byte>, p: nat)
    requires cursor <= |text| && out.Valid()
    modifies out, out.entry
    ensures out.Valid()
    ensures ok ==> cursor < p <= |text| && rest == text[p..]
    ensures ok ==> TakeList(old(out.Contents()), text[cursor..])
                   == if rest == [] then Some(out.Contents())
                      else if rest[0] != SEMICOLON || |rest| == 1 then None
                      else TakeList(out.Contents(), rest[1..])
    ensures !ok ==> TakeList(old(out.Contents()), text[cursor..]).None?
  {
    hide TakeRecord, TakeList, GoesBefore;
    ok, rest, p := false, [], cursor;
    ghost var read := out.Contents();
    ListStep(read, text[cursor..]);
    if out.count == RECORD_LIMIT {
      return;
    }
    var record;
    ok, record, p := ParseFields(text, cursor);
    if !ok {
      return;
    }
    var refused := out.Refuses(record);
    if refused {
      return false, [], p;
    }
    rest := text[p..];
    out.entry[out.count] := record;
    out.count := out.count + 1;
    assert out.Contents() == read + [record];
  }

  // One round of the parser's loop: an entry, then the end of the text or the separator before the next one.
  method ParseEntry(text: seq<byte>, cursor: nat, out: Records) returns (done: bool, r: int, p: nat)
    requires cursor <= |text| && out.Valid()
    modifies out, out.entry
    ensures r == 0 || r == -1
    ensures out.Valid()
    ensures done && r == 0 ==> Some(out.Contents()) == TakeList(old(out.Contents()), text[cursor..])
    ensures done && r != 0 ==> TakeList(old(out.Contents()), text[cursor..]).None?
    ensures !done ==> cursor < p <= |text|
    ensures !done ==> TakeList(out.Contents(), text[p..]) == TakeList(old(out.Contents()), text[cursor..])
  {
    hide TakeList;
    var ok;
    ghost var rest;
    ok, rest, p := FillEntry(text, cursor, out);
    if !ok {
      return true, -1, p;
    }
    if p == |text| {
      return true, 0, p;
    }
    p := p + 1;
    assert rest[0] == text[p - 1] && rest[1..] == text[p..];
    if text[p - 1] != SEMICOLON || p == |text| {
      return true, -1, p;
    }
    done, r := false, 0;
  }

  method ParseFields(text: seq<byte>, cursor: nat) returns (ok: bool, record: Record, p: nat)
    requires cursor <= |text|
    ensures ok ==> cursor < p <= |text| && TakeRecord(text[cursor..]) == Some((record, text[p..]))
    ensures !ok ==> TakeRecord(text[cursor..]).None?
  {
    hide TakeId, TakeGeneration, TakeTries;
    record, p := Record([], [], 0, 0), cursor;
    var id, kernel, generation, tries;
    ok, id, p := ParseId(text, p);
    if !ok {
      return;
    }
    ok, kernel, p := ParseId(text, p);
    if !ok {
      return;
    }
    ok, generation, p := ParseGeneration(text, p);
    if !ok {
      return;
    }
    ok, tries, p := ParseTries(text, p);
    if !ok {
      return;
    }
    record := Record(id, kernel, generation, tries);
    assert TakeRecord(text[cursor..]) == Some((record, text[p..]));
  }

  method ParseTries(text: seq<byte>, cursor: nat) returns (ok: bool, tries: int, p: nat)
    requires cursor <= |text|
    ensures ok ==> p <= |text| && TakeTries(text[cursor..]) == Some((tries, text[p..]))
    ensures !ok ==> TakeTries(text[cursor..]).None?
  {
    p, tries := cursor, 0;
    if |text| - p < 2 || text[p] != COMMA {
      return false, 0, p;
    }
    p := p + 1;
    if text[p] == DASH {
      tries := -1;
    } else if 0x30 <= text[p] <= 0x33 {
      tries := text[p] - 0x30;
    } else {
      return false, 0, p;
    }
    p := p + 1;
    assert text[cursor..][2..] == text[p..];
    ok := true;
  }

  // strnlen, up to one past the limit.
  method BoundedLength(memory: seq<byte>) returns (length: nat)
    requires |memory| > VALUE_LIMIT || 0 in memory
    ensures length <= |memory|
    ensures length <= VALUE_LIMIT ==> CString(memory) == memory[..length]
    ensures length > VALUE_LIMIT ==> |CString(memory)| > VALUE_LIMIT
  {
    length := 0;
    while length <= VALUE_LIMIT && memory[length] != 0
      invariant 0 <= length <= VALUE_LIMIT + 1 && length <= |memory|
      invariant forall i | 0 <= i < length :: memory[i] != 0
      invariant length == |memory| ==> length > VALUE_LIMIT
    {
      length := length + 1;
    }
    if length <= VALUE_LIMIT {
      CStringOf(memory, length);
    }
  }

  method ParseInto(memory: seq<byte>, out: Records) returns (r: int)
    requires |memory| > VALUE_LIMIT || 0 in memory
    requires out.entry.Length == RECORD_LIMIT
    modifies out, out.entry
    ensures r == 0 || r == -1
    ensures r == 0 <==> Parse(CString(memory)).Some?
    ensures r == 0 ==> out.Valid() && Some(out.Contents()) == Parse(CString(memory))
  {
    var length := BoundedLength(memory);
    if length > VALUE_LIMIT || length < 4 || memory[..3] != HEADER {
      return -1;
    }
    var text := memory[..length];
    out.count := 0;
    out.entry[0], out.entry[1] := Record([], [], 0, 0), Record([], [], 0, 0);
    var p := 3;
    while p < |text|
      invariant 3 <= p <= |text|
      invariant out.Valid()
      invariant Parse(text) == TakeList(out.Contents(), text[p..])
    {
      var done;
      done, r, p := ParseEntry(text, p, out);
      if done {
        return;
      }
    }
    r := -1;
  }

  /* -------- Writing -------- */

  // Any record a C struct can hold: two strings of at most 64 characters and an unsigned 64-bit number.
  predicate IsCRecord(r: Record) {
    |r.id| <= 64 && |r.kernel| <= 64 && 0 !in r.id && 0 !in r.kernel && r.generation < U64_LIMIT
  }

  lemma TakeIdExact(id: seq<byte>, rest: seq<byte>)
    requires |id| <= 64
    ensures TakeId(id + [COMMA] + rest) == if IsId(id) then Some((id, rest)) else None
  {
    var s := id + [COMMA] + rest;
    if IsId(id) {
      TakeIdText(id, rest);
    } else if |s| >= 65 && |id| < 64 {
      assert s[..64][|id|] == COMMA;
    } else if |id| == 64 {
      assert s[..64] == id;
    }
  }

  // Whatever record is written, only a valid one is read back, and as itself.
  lemma TakeRecordExact(r: Record, rest: seq<byte>)
    requires IsCRecord(r) && -1 <= r.tries <= 3
    ensures TakeRecord(RecordText(r) + rest) == if ValidRecord(r) then Some((r, rest)) else None
  {
    hide TakeId, TakeGeneration, TakeTries, Digits, IsId;
    var s3 := [COMMA, TriesByte(r.tries)] + rest;
    var s2 := Digits(r.generation) + s3;
    var s1 := r.kernel + [COMMA] + s2;
    assert RecordText(r) + rest == r.id + [COMMA] + s1;
    TakeIdExact(r.id, s1);
    TakeIdExact(r.kernel, s2);
    if r.generation > 0 {
      TakeGenerationText(r.generation, s3);
    } else {
      TakeGenerationZero(s3);
    }
    TakeTriesText(r.tries, rest);
  }

  lemma TakeGenerationZero(rest: seq<byte>)
    ensures TakeGeneration(Digits(0) + rest).None?
  {
    assert Numeral(0) == [0];
    assert (Digits(0) + rest)[0] == 0x30;
  }

  lemma {:induction false} TakeListExact(read: seq<Record>, rs: seq<Record>)
    requires rs != [] && forall i {:trigger rs[i]} | 0 <= i < |rs| :: IsCRecord(rs[i]) && -1 <= rs[i].tries <= 3
    ensures TakeList(read, ListText(rs)).Some? ==> TakeList(read, ListText(rs)).value == read + rs
    decreases |rs|
  {
    hide TakeRecord, RecordText, TakeList, IsCRecord;
    var r, more := rs[0], rs[1..];
    var rest := if more == [] then [] else [SEMICOLON] + ListText(more);
    assert ListText(rs) == RecordText(r) + rest;
    TakeRecordExact(r, rest);
    ListStep(read, ListText(rs));
    if more == [] {
      assert read + [r] == read + rs;
    } else {
      assert rest[1..] == ListText(more);
      assert read + [r] + more == read + rs;
      TakeListExact(read + [r], more);
    }
  }

  // The parser run on what the renderer wrote refuses exactly the records that are not valid.
  lemma ParseOfWritten(rs: seq<Record>)
    requires 1 <= |rs| <= RECORD_LIMIT
    requires forall i {:trigger rs[i]} | 0 <= i < |rs| :: IsCRecord(rs[i]) && -1 <= rs[i].tries <= 3
    ensures Parse(Text(rs)) == if ValidRecords(rs) then Some(rs) else None
  {
    hide TakeList;
    if ValidRecords(rs) {
      ParseIsExact(Text(rs), rs);
    } else if Parse(Text(rs)).Some? {
      var q := Parse(Text(rs)).value;
      assert Text(rs)[3..] == ListText(rs);
      TakeListExact([], rs);
      assert [] + rs == rs;
      ParseIsExact(Text(rs), q);
    }
  }

  lemma CRecordTextLength(r: Record)
    requires IsCRecord(r) && -1 <= r.tries <= 3
    ensures |RecordText(r)| <= 152 && 0 !in RecordText(r)
  {
    TwentyDigits();
    RecordTextLength(r, 20);
    assert 0 !in Digits(r.generation);
  }

  lemma TwentyDigits()
    ensures U64_LIMIT <= Pow10(20)
  {
    SixteenDigits();
    assert Pow10(4) == 10000;
    assert Pow10(8) == 100000000;
    assert Pow10(12) == 1000000000000;
    assert Pow10(16) == 10000000000000000;
  }

  // snprintf of a string into text at a position: what fits before the terminating zero, and the string's length.
  method Snprintf(text: array<byte>, at: nat, piece: seq<byte>) returns (written: nat)
    requires at < text.Length
    modifies text
    ensures written == |piece|
    ensures var n := if |piece| < text.Length - at then |piece| else text.Length - at - 1;
            text[..at] == old(text[..at]) && text[at..at + n] == piece[..n] && text[at + n] == 0
  {
    var n := if |piece| < text.Length - at then |piece| else text.Length - at - 1;
    for i := 0 to n
      invariant text[..at] == old(text[..at]) && text[at..at + i] == piece[..i]
    {
      text[at + i] := piece[i];
    }
    text[at + n] := 0;
    written := |piece|;
  }

  // What the renderer writes before record i: the separator, but before the first.
  function Piece(rs: seq<Record>, i: nat): seq<byte>
    requires i < |rs| && -1 <= rs[i].tries <= 3
  {
    (if i > 0 then [SEMICOLON] else []) + RecordText(rs[i])
  }

  lemma PieceExtends(rs: seq<Record>, i: nat)
    requires i < |rs| <= RECORD_LIMIT
    requires forall k {:trigger rs[k]} | 0 <= k <= i :: IsCRecord(rs[k]) && -1 <= rs[k].tries <= 3
    ensures Text(rs[..i + 1]) == Text(rs[..i]) + Piece(rs, i)
    ensures |Piece(rs, i)| <= 153 && 0 !in Piece(rs, i)
  {
    hide RecordText;
    CRecordTextLength(rs[i]);
    if i == 0 {
      assert rs[..1] == [rs[0]];
    } else {
      assert rs[..2][1..] == [rs[1]] && rs[..1] == [rs[0]];
      assert ListText(rs[..2]) == RecordText(rs[0]) + [SEMICOLON] + RecordText(rs[1]);
      assert Text(rs[..1]) == HEADER + RecordText(rs[0]);
    }
  }

  lemma ParseOfBuffer(memory: seq<byte>, used: nat, rs: seq<Record>)
    requires 1 <= |rs| <= RECORD_LIMIT
    requires forall i {:trigger rs[i]} | 0 <= i < |rs| :: IsCRecord(rs[i]) && -1 <= rs[i].tries <= 3
    requires Holds(memory, used, Text(rs))
    ensures CString(memory) == Text(rs) && memory[used] == 0
    ensures Parse(CString(memory)) == if ValidRecords(rs) then Some(rs) else None
  {
    hide Text, Parse;
    forall i | 0 <= i < used ensures memory[i] != 0 {
      assert memory[i] == memory[..used][i];
    }
    CStringOf(memory, used);
    ParseOfWritten(rs);
  }

  // The renderer succeeds exactly on valid records. Its guard against truncation never fires: any two records a C
  // struct can hold take at most 309 characters.
  method Render(records: Records, text: array<byte>) returns (r: int)
    requires records.entry.Length == RECORD_LIMIT && text.Length == VALUE_LIMIT + 1
    requires forall i {:trigger records.entry[i]} | 0 <= i < records.count && i < RECORD_LIMIT :: IsCRecord(records.entry[i])
    modifies text
    ensures r == 0 || r == -1
    ensures r == 0 <==> records.Valid() && ValidRecords(records.Contents())
    ensures r == 0 ==> CString(text[..]) == Text(records.Contents())
  {
    if records.count == 0 || records.count > RECORD_LIMIT {
      return -1;
    }
    ghost var rs := records.Contents();
    hide Text, CString, Parse, IsCRecord, Holds;
    var ok, used := RenderPieces(records, text);
    if !ok {
      return -1;
    }
    ParseOfBuffer(text[..], used, rs);
    var checked := new Records();
    r := ParseInto(text[..], checked);
  }

  lemma ValidIsCRecord(rs: seq<Record>)
    requires ValidRecords(rs)
    ensures forall i {:trigger rs[i]} | 0 <= i < |rs| :: IsCRecord(rs[i])
  {
  }

  // mica_boot_render after mica_boot_parse is the identity on the texts that parse.
  method ParseThenRender(memory: seq<byte>, out: Records, text: array<byte>) returns (r: int, s: int)
    requires |memory| > VALUE_LIMIT || 0 in memory
    requires out.entry.Length == RECORD_LIMIT && text.Length == VALUE_LIMIT + 1
    modifies out, out.entry, text
    ensures r == 0 <==> Parse(CString(memory)).Some?
    ensures r == 0 ==> s == 0 && CString(text[..]) == CString(memory)
  {
    hide Parse, CString, ValidRecords, IsCRecord, Text;
    s := -1;
    r := ParseInto(memory, out);
    if r == 0 {
      ghost var rs := out.Contents();
      ParseIsExact(CString(memory), rs);
      ValidIsCRecord(rs);
      assert forall i {:trigger out.entry[i]} | 0 <= i < out.count :: out.entry[i] == rs[i];
      s := Render(out, text);
    }
  }

  method RenderPieces(records: Records, text: array<byte>) returns (ok: bool, used: nat)
    requires records.Valid() && records.count > 0 && text.Length == VALUE_LIMIT + 1
    requires forall i {:trigger records.entry[i]} | 0 <= i < records.count && i < RECORD_LIMIT :: IsCRecord(records.entry[i])
    modifies text
    ensures ok <==> forall k {:trigger records.entry[k]} | 0 <= k < records.count :: -1 <= records.entry[k].tries <= 3
    ensures ok ==> Holds(text[..], used, Text(records.Contents()))
  {
    ghost var rs := records.Contents();
    hide RecordText, Piece, IsCRecord, ListText;
    text[0], text[1], text[2], text[3] := 0x76, 0x31, 0x7c, 0;
    used := 3;
    assert Holds(text[..], 3, Text(rs[..0])) by {
      assert text[..][..3] == HEADER == Text([]);
      assert rs[..0] == [];
    }
    for i := 0 to records.count
      invariant forall k {:trigger rs[k]} | 0 <= k < i :: -1 <= rs[k].tries <= 3
      invariant used <= 3 + 153 * i
      invariant Holds(text[..], used, Text(rs[..i]))
    {
      if records.entry[i].tries < -1 || records.entry[i].tries > 3 {
        return false, used;
      }
      assert rs[i] == records.entry[i];
      PieceExtends(rs, i);
      used := AppendPiece(text, used, Piece(records.entry[..records.count], i), Text(rs[..i]));
      if used > VALUE_LIMIT {
        return false, used;
      }
    }
    assert rs[..|rs|] == rs;
    ok := true;
  }

  // The buffer holds the string s, terminated at used.
  ghost predicate Holds(buffer: seq<byte>, used: nat, s: seq<byte>) {
    used < |buffer| && buffer[..used] == s && 0 !in s && buffer[used] == 0
  }

  method AppendPiece(text: array<byte>, at: nat, piece: seq<byte>, ghost before: seq<byte>) returns (used: nat)
    requires text.Length == VALUE_LIMIT + 1 && Holds(text[..], at, before)
    requires 0 !in piece
    modifies text
    ensures used == at + |piece|
    ensures used <= VALUE_LIMIT ==> Holds(text[..], used, before + piece)
  {
    var written := Snprintf(text, at, piece);
    used := at + written;
    if used <= VALUE_LIMIT {
      assert text[..][..used] == text[..at] + text[at..used];
    }
  }

  /* -------- The one entry of a redundant-environment copy -------- */

  const ENV_KEY: seq<byte> := [0x6d, 0x69, 0x63, 0x61, 0x5f, 0x65, 0x6e, 0x74, 0x72, 0x69, 0x65, 0x73, 0x3d] // mica_entries=
  const ENV_VALUE_OFFSET := 18

  // A copy that holds exactly the entry with this value: at least two zero bytes end the entry and the environment,
  // and nothing but zeros follows.
  ghost predicate HoldsEntry(copy: seq<byte>, value: seq<byte>) {
    && 0 !in value && |value| <= VALUE_LIMIT
    && ENV_VALUE_OFFSET + |value| + 2 <= |copy|
    && copy[5..] == ENV_KEY + value + Zeros(|copy| - ENV_VALUE_OFFSET - |value|)
  }

  lemma EntryParts(copy: seq<byte>, value: seq<byte>)
    requires HoldsEntry(copy, value)
    ensures copy[5..ENV_VALUE_OFFSET] == ENV_KEY
    ensures forall i | 0 <= i < |value| :: copy[ENV_VALUE_OFFSET + i] == value[i] != 0
    ensures forall i | ENV_VALUE_OFFSET + |value| <= i < |copy| :: copy[i] == 0
  {
    var tail := ENV_KEY + value + Zeros(|copy| - ENV_VALUE_OFFSET - |value|);
    assert forall i | 5 <= i < |copy| :: copy[i] == tail[i - 5];
  }

  lemma PartsEntry(copy: seq<byte>, end: nat)
    requires ENV_VALUE_OFFSET <= end && end + 2 <= |copy| && end <= ENV_VALUE_OFFSET + VALUE_LIMIT
    requires copy[5..ENV_VALUE_OFFSET] == ENV_KEY
    requires forall i | ENV_VALUE_OFFSET <= i < end :: copy[i] != 0
    requires forall i | end <= i < |copy| :: copy[i] == 0
    ensures HoldsEntry(copy, copy[ENV_VALUE_OFFSET..end])
  {
    assert copy[5..] == copy[5..ENV_VALUE_OFFSET] + copy[ENV_VALUE_OFFSET..end] + copy[end..];
    assert copy[end..] == Zeros(|copy| - end);
  }

  lemma EntryEnd(copy: seq<byte>, value: seq<byte>, end: nat)
    requires HoldsEntry(copy, value)
    requires ENV_VALUE_OFFSET <= end <= |copy| && (end < |copy| ==> copy[end] == 0)
    requires forall i | ENV_VALUE_OFFSET <= i < end :: copy[i] != 0
    ensures end == ENV_VALUE_OFFSET + |value|
  {
    EntryParts(copy, value);
    assert copy[ENV_VALUE_OFFSET + |value|] == 0;
    forall k | ENV_VALUE_OFFSET <= k < ENV_VALUE_OFFSET + |value| ensures copy[k] != 0 {
      assert copy[ENV_VALUE_OFFSET + (k - ENV_VALUE_OFFSET)] == value[k - ENV_VALUE_OFFSET];
    }
  }

  // The value of a copy is the string at its offset, so a copy holds one entry at most.
  lemma EntryIsTheString(copy: seq<byte>, value: seq<byte>)
    requires HoldsEntry(copy, value)
    ensures CString(copy[ENV_VALUE_OFFSET..]) == value
  {
    EntryParts(copy, value);
    var rest := copy[ENV_VALUE_OFFSET..];
    assert forall i | 0 <= i < |rest| :: rest[i] == copy[ENV_VALUE_OFFSET + i];
    CStringOf(rest, |value|);
    assert rest[..|value|] == value;
  }

  // The value is found exactly in the copies that hold an entry, and it is that entry's.
  method EnvValue(copy: seq<byte>) returns (offset: Option<nat>)
    requires |copy| >= ENV_VALUE_OFFSET
    ensures offset.Some? <==> exists value :: HoldsEntry(copy, value)
    ensures offset.Some? ==> offset.value < |copy| && HoldsEntry(copy, CString(copy[offset.value..]))
    ensures offset.Some? ==> |copy[offset.value..]| > VALUE_LIMIT || 0 in copy[offset.value..]
  {
    hide CString;
    if copy[5..ENV_VALUE_OFFSET] != ENV_KEY {
      forall value | HoldsEntry(copy, value) ensures false {
        EntryParts(copy, value);
      }
      return None;
    }
    var end := ENV_VALUE_OFFSET;
    while end < |copy| && copy[end] != 0
      invariant ENV_VALUE_OFFSET <= end <= |copy|
      invariant forall i | ENV_VALUE_OFFSET <= i < end :: copy[i] != 0
    {
      end := end + 1;
    }
    ghost var valueEnd := end;
    if end - ENV_VALUE_OFFSET > VALUE_LIMIT || end + 1 >= |copy| {
      forall value | HoldsEntry(copy, value) ensures false {
        EntryParts(copy, value);
        EntryEnd(copy, value, end);
      }
      return None;
    }
    while end < |copy|
      invariant valueEnd <= end <= |copy|
      invariant forall i | valueEnd <= i < end :: copy[i] == 0
    {
      if copy[end] != 0 {
        forall value | HoldsEntry(copy, value) ensures false {
          EntryParts(copy, value);
          EntryEnd(copy, value, valueEnd);
        }
        return None;
      }
      end := end + 1;
    }
    ghost var rest := copy[ENV_VALUE_OFFSET..];
    CStringOf(rest, valueEnd - ENV_VALUE_OFFSET);
    assert rest[valueEnd - ENV_VALUE_OFFSET] == 0;
    PartsEntry(copy, valueEnd);
    offset := Some(ENV_VALUE_OFFSET);
  }

  // mica_env_store, on a copy zeroed from byte 5: the copy then holds the entry, and its first five bytes are kept.
  method EnvStore(copy: array<byte>, text: seq<byte>)
    requires 0 !in text && |text| <= VALUE_LIMIT && ENV_VALUE_OFFSET + |text| + 2 <= copy.Length
    requires forall i | 5 <= i < copy.Length :: copy[i] == 0
    modifies copy
    ensures copy[..5] == old(copy[..5])
    ensures HoldsEntry(copy[..], text)
  {
    for i := 0 to |ENV_KEY|
      invariant copy[..5] == old(copy[..5])
      invariant copy[5..5 + i] == ENV_KEY[..i]
      invariant forall k | 5 + i <= k < copy.Length :: copy[k] == 0
    {
      copy[5 + i] := ENV_KEY[i];
    }
    for i := 0 to |text|
      invariant copy[..5] == old(copy[..5])
      invariant copy[5..ENV_VALUE_OFFSET] == ENV_KEY
      invariant copy[ENV_VALUE_OFFSET..ENV_VALUE_OFFSET + i] == text[..i]
      invariant forall k | ENV_VALUE_OFFSET + i <= k < copy.Length :: copy[k] == 0
    {
      copy[ENV_VALUE_OFFSET + i] := text[i];
    }
    assert copy[..][5..] == copy[5..ENV_VALUE_OFFSET] + copy[ENV_VALUE_OFFSET..ENV_VALUE_OFFSET + |text|] + copy[ENV_VALUE_OFFSET + |text|..];
    assert copy[ENV_VALUE_OFFSET + |text|..] == Zeros(copy.Length - ENV_VALUE_OFFSET - |text|);
  }

  // The record to boot: the first that is not out of tries.
  method Next(records: Records) returns (r: int)
    requires records.Valid()
    ensures var rs := records.Contents();
            if r == -1 then forall i | 0 <= i < |rs| :: rs[i].tries == 0
            else 0 <= r < |rs| && rs[r].tries != 0 && forall i | 0 <= i < r :: rs[i].tries == 0
  {
    for i := 0 to records.count
      invariant forall k | 0 <= k < i :: records.Contents()[k].tries == 0
    {
      if records.entry[i].tries != 0 {
        return i;
      }
    }
    r := -1;
  }

  function Slot(validA: bool, a: byte, validB: bool, b: byte): int {
    if !validA then (if validB then 1 else -1)
    else if !validB then 0
    else if (a == 255 && b == 0) || (b > a && !(b == 255 && a == 0)) then 1
    else 0
  }

  // A copy that is invalid is never selected where the other is valid. Of two valid ones the second is where its flag is the
  // next after the first's; the first is where its flag is the next after the second's, or the same.
  lemma SlotOf(a: byte, b: byte)
    ensures Slot(false, a, false, b) == -1 && Slot(true, a, false, b) == 0 && Slot(false, a, true, b) == 1
    ensures b == Successor(a) ==> Slot(true, a, true, b) == 1
    ensures a == Successor(b) || a == b ==> Slot(true, a, true, b) == 0
    ensures a != Successor(b) && b != Successor(a) ==> (Slot(true, a, true, b) == 1 <==> b > a)
  {
  }

  function Successor(flag: byte): byte {
    (flag + 1) % 256
  }

  // The two copies as a writer leaves them that always writes the copy not selected, under the selected copy's flag
  // plus one; the copy being written may be invalid until it is complete.
  datatype Copies = Copies(validA: bool, a: byte, validB: bool, b: byte)

  function Selected(c: Copies): int {
    Slot(c.validA, c.a, c.validB, c.b)
  }

  function Interrupted(c: Copies): Copies {
    if Selected(c) == 0 then c.(validB := false) else c.(validA := false)
  }

  function Written(c: Copies): Copies
    requires Selected(c) != -1
  {
    if Selected(c) == 0 then c.(validB := true, b := Successor(c.a)) else c.(validA := true, a := Successor(c.b))
  }

  // From any pair of copies with a valid one: a write that is interrupted leaves the old copy selected, a completed
  // write selects the new copy, even where the flag wraps around, and one that repeats an interrupted one ends the same.
  lemma WriteSelectsTheNewCopy(c: Copies)
    requires Selected(c) != -1
    ensures Selected(Interrupted(c)) == Selected(c)
    ensures Selected(Written(c)) == 1 - Selected(c)
    ensures Written(Interrupted(c)) == Written(c)
  {
  }

  // After any number of such writes the copy selected is the last one written.
  function Writes(c: Copies, n: nat): Copies
    requires Selected(c) != -1
    ensures Selected(Writes(c, n)) != -1
  {
    if n == 0 then c else Written(Writes(c, n - 1))
  }

  lemma {:induction false} WritesAlternate(c: Copies, n: nat)
    requires Selected(c) != -1
    ensures Selected(Writes(c, n)) == if n % 2 == 0 then Selected(c) else 1 - Selected(c)
  {
    if n > 0 {
      WritesAlternate(c, n - 1);
      WriteSelectsTheNewCopy(Writes(c, n - 1));
    }
  }

  // The marks of the format as text, and its limits.
  lemma Marks()
    ensures HEADER == Ascii("v1|") && ENV_KEY == Ascii("mica_entries=") && ENV_VALUE_OFFSET == 5 + |ENV_KEY|
    ensures GENERATION_LIMIT == 0x1f_ffff_ffff_ffff && VALUE_LIMIT == 512 && RECORD_LIMIT == 2
    ensures [COMMA] == Ascii(",") && [DASH] == Ascii("-") && [SEMICOLON] == Ascii(";")
  {
  }
}
