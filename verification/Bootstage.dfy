/** Boot stage records: the byte image that one boot phase leaves in memory, and how the next phase
    reads it back. Words are 32 bits, least significant byte first. */
module Bootstage {
  import opened Options

  type byte = x: int | 0 <= x < 0x100
  type u32 = x: int | 0 <= x < 0x1_0000_0000
  type CString = s: seq<byte> | forall i :: 0 <= i < |s| ==> s[i] != 0

  const BOOTSTAGE_ID_USER: nat := 171
  const BOOTSTAGE_ID_COUNT: nat := 191
  const BOOTSTAGE_VERSION: u32 := 0
  const BOOTSTAGE_MAGIC: u32 := 0xb00757a3
  const HDR_SIZE := 16
  const REC_SIZE := 20

  /** `nameAddr` is the name pointer as stored, `name` the string it leads to, if any. */
  datatype Record = Record(timeUs: u32, startUs: u32, nameAddr: u32, name: Option<CString>, flags: u32, id: u32)

  // ----- names -----

  function Digits(n: nat): (s: CString)
  {
    var d: byte := 48 + n % 10;
    if n < 10 then [d] else Digits(n / 10) + [d]
  }

  /** "%d" of a 32-bit word. */
  function Decimal(x: u32): CString {
    if x < 0x8000_0000 then Digits(x) else [45] + Digits(0x1_0000_0000 - x)
  }

  const USER_PREFIX: CString := [117, 115, 101, 114, 95]   // "user_"
  const ID_PREFIX: CString := [105, 100, 61]               // "id="

  function GeneratedName(id: u32): CString {
    if id >= BOOTSTAGE_ID_USER then USER_PREFIX + Decimal(id - BOOTSTAGE_ID_USER) else ID_PREFIX + Decimal(id)
  }

  /** get_record_name with its 20-byte buffer. */
  function NameOf(r: Record): CString {
    match r.name
    case Some(s) => s
    case None => if |GeneratedName(r.id)| > 19 then GeneratedName(r.id)[..19] else GeneratedName(r.id)
  }

  /** What a row of digits says. */
  function Value(s: seq<byte>): int {
    if s == [] then 0 else 10 * Value(s[..|s| - 1]) + (s[|s| - 1] as int - 48)
  }

  /** A generated name's digits say its number. */
  lemma {:induction false} DigitsReadBack(n: nat)
    ensures Value(Digits(n)) == n && forall i :: 0 <= i < |Digits(n)| ==> 48 <= Digits(n)[i] <= 57
  {
    if n >= 10 {
      DigitsReadBack(n / 10);
      var s := Digits(n);
      assert s[..|s| - 1] == Digits(n / 10);
    }
  }

  /** Decimal digits without a superfluous 0 in front. */
  predicate IsNumeral(s: seq<byte>) {
    |s| >= 1 && (|s| > 1 ==> s[0] != 48) && forall i :: 0 <= i < |s| ==> 48 <= s[i] <= 57
  }

  lemma {:induction false} DigitsAreNumeral(n: nat)
    ensures IsNumeral(Digits(n)) && (n > 0 ==> Digits(n)[0] != 48)
  {
    if n >= 10 {
      DigitsAreNumeral(n / 10);
    }
  }

  /** s is how a signed 32-bit word is written in decimal. */
  predicate IsDecimal(s: seq<byte>, x: u32) {
    if x < 0x8000_0000 then IsNumeral(s) && Value(s) == x
    else |s| > 0 && s[0] == 45 && IsNumeral(s[1..]) && Value(s[1..]) == 0x1_0000_0000 - x
  }

  /** s is the name of a record: its own, if it has one; else user_ and what its number exceeds 171 by, or
      id= and its number. */
  predicate IsName(s: seq<byte>, r: Record) {
    match r.name
    case Some(own) => s == own
    case None =>
      if r.id >= 171 then [117, 115, 101, 114, 95] <= s && IsDecimal(s[5..], r.id - 171)
      else [105, 100, 61] <= s && IsDecimal(s[3..], r.id)
  }

  lemma DecimalIsDecimal(x: u32)
    ensures IsDecimal(Decimal(x), x)
  {
    var n := if x < 0x8000_0000 then x as nat else 0x1_0000_0000 - x;
    DigitsReadBack(n);
    DigitsAreNumeral(n);
  }

  lemma NameOfIsName(r: Record)
    ensures IsName(NameOf(r), r)
  {
    NamesAreNotCut(r.id);
    if r.name.None? {
      DecimalIsDecimal(if r.id >= BOOTSTAGE_ID_USER then r.id - BOOTSTAGE_ID_USER else r.id);
    }
  }

  function Pow10(k: nat): nat { if k == 0 then 1 else 10 * Pow10(k - 1) }

  lemma {:induction false} DigitCount(n: nat, k: nat)
    requires k >= 1 && n < Pow10(k)
    ensures |Digits(n)| <= k
  {
    if n >= 10 {
      DigitCount(n / 10, k - 1);
    }
  }

  /** The buffer is always large enough, so no generated name is ever cut short. */
  lemma NamesAreNotCut(id: u32)
    ensures |GeneratedName(id)| <= 16
  {
    assert Pow10(10) == 10 * Pow10(9) == 100 * Pow10(8) == 1000 * Pow10(7) == 10000 * Pow10(6) == 100000 * Pow10(5);
    forall n: nat | n <= 0x1_0000_0000
      ensures |Digits(n)| <= 10
    {
      DigitCount(n, 10);
    }
  }

  // ----- words and records as bytes -----

  function Put32(x: u32): (b: seq<byte>)
    ensures |b| == 4
  {
    [x % 256, x / 256 % 256, x / 65536 % 256, x / 16777216]
  }

  function Get32(b: seq<byte>, at: nat): u32
    requires at + 4 <= |b|
  {
    var b0: int, b1: int, b2: int, b3: int := b[at], b[at + 1], b[at + 2], b[at + 3];
    b0 + 256 * b1 + 65536 * b2 + 16777216 * b3
  }

  lemma WordRoundTrip(x: u32, b: seq<byte>, at: nat)
    requires at + 4 <= |b| && b[at..at + 4] == Put32(x)
    ensures Get32(b, at) == x
  {
    var w := b[at..at + 4];
    assert w[0] == b[at] && w[1] == b[at + 1] && w[2] == b[at + 2] && w[3] == b[at + 3];
    assert x / 256 == x / 65536 * 256 + x / 256 % 256;
    assert x / 65536 == x / 16777216 * 256 + x / 65536 % 256;
  }

  function PutRecord(r: Record): (b: seq<byte>)
    ensures |b| == REC_SIZE
  {
    Put32(r.timeUs) + Put32(r.startUs) + Put32(r.nameAddr) + Put32(r.flags) + Put32(r.id)
  }

  /** The record at a place in the image; its name is still to be read. */
  function GetRecord(b: seq<byte>, at: nat): Record
    requires at + REC_SIZE <= |b|
  {
    Record(Get32(b, at), Get32(b, at + 4), Get32(b, at + 8), None, Get32(b, at + 12), Get32(b, at + 16))
  }

  lemma SliceOfSlice(b: seq<byte>, at: nat, n: nat, i: nat, m: nat)
    requires at + n <= |b| && i + m <= n
    ensures b[at..at + n][i..i + m] == b[at + i..at + i + m]
  {
    var l, r := b[at..at + n][i..i + m], b[at + i..at + i + m];
    assert forall k :: 0 <= k < m ==> l[k] == r[k];
  }

  lemma RecordRoundTrip(r: Record, b: seq<byte>, at: nat)
    requires at + REC_SIZE <= |b| && b[at..at + REC_SIZE] == PutRecord(r)
    ensures GetRecord(b, at) == r.(name := None)
  {
    var e := b[at..at + REC_SIZE];
    SliceOfSlice(b, at, REC_SIZE, 0, 4);
    SliceOfSlice(b, at, REC_SIZE, 4, 4);
    SliceOfSlice(b, at, REC_SIZE, 8, 4);
    SliceOfSlice(b, at, REC_SIZE, 12, 4);
    SliceOfSlice(b, at, REC_SIZE, 16, 4);
    assert e[0..4] == Put32(r.timeUs) && e[4..8] == Put32(r.startUs) && e[8..12] == Put32(r.nameAddr);
    assert e[12..16] == Put32(r.flags) && e[16..20] == Put32(r.id);
    WordRoundTrip(r.timeUs, b, at);
    WordRoundTrip(r.startUs, b, at + 4);
    WordRoundTrip(r.nameAddr, b, at + 8);
    WordRoundTrip(r.flags, b, at + 12);
    WordRoundTrip(r.id, b, at + 16);
  }

  // ----- the image -----

  /** The records that have a time, in table order. */
  function Live(recs: seq<Record>): seq<Record> {
    if recs == [] then []
    else Live(recs[..|recs| - 1]) + if recs[|recs| - 1].timeUs != 0 then [recs[|recs| - 1]] else []
  }

  function RecordBytes(recs: seq<Record>): (b: seq<byte>)
    ensures |b| == REC_SIZE * |recs|
  {
    if recs == [] then [] else RecordBytes(recs[..|recs| - 1]) + PutRecord(recs[|recs| - 1])
  }

  /** Each string with its terminating zero. */
  function Joined(names: seq<CString>): seq<byte> {
    if names == [] then [] else Joined(names[..|names| - 1]) + (names[|names| - 1] + [0])
  }

  function NamesOf(recs: seq<Record>): (names: seq<CString>)
    ensures |names| == |recs| && forall k :: 0 <= k < |recs| ==> names[k] == NameOf(recs[k])
  {
    seq(|recs|, k requires 0 <= k < |recs| => NameOf(recs[k]))
  }

  function NameBytes(recs: seq<Record>): seq<byte> { Joined(NamesOf(recs)) }

  function Header(count: u32, size: u32): (b: seq<byte>)
    ensures |b| == HDR_SIZE
  {
    Put32(BOOTSTAGE_VERSION) + Put32(count) + Put32(size) + Put32(BOOTSTAGE_MAGIC)
  }

  /** Everything after the header. */
  function Payload(recs: seq<Record>): seq<byte> {
    RecordBytes(Live(recs)) + NameBytes(Live(recs))
  }

  lemma {:induction false} LiveIsNoLonger(recs: seq<Record>)
    ensures |Live(recs)| <= |recs|
  {
    if recs != [] {
      LiveIsNoLonger(recs[..|recs| - 1]);
    }
  }

  lemma LiveStep(recs: seq<Record>, id: nat)
    requires id < |recs|
    ensures Live(recs[..id + 1]) == if recs[id].timeUs != 0 then Live(recs[..id]) + [recs[id]] else Live(recs[..id])
  {
    assert recs[..id + 1][..id] == recs[..id];
  }

  /** Live holds exactly the records with a time, ... */
  lemma {:induction false} LiveIff(recs: seq<Record>, r: Record)
    ensures r in Live(recs) <==> r in recs && r.timeUs != 0
  {
    if recs != [] {
      var init := recs[..|recs| - 1];
      assert recs == init + [recs[|recs| - 1]];
      LiveIff(init, r);
    }
  }

  /** ... each after those that come before it. */
  lemma {:induction false} LivePlace(recs: seq<Record>, i: nat)
    requires i < |recs| && recs[i].timeUs != 0
    ensures |Live(recs[..i])| < |Live(recs)| && Live(recs)[|Live(recs[..i])|] == recs[i]
  {
    if i < |recs| - 1 {
      var init := recs[..|recs| - 1];
      LivePlace(init, i);
      assert init[..i] == recs[..i];
    }
  }

  lemma BytesStep(recs: seq<Record>, r: Record)
    ensures RecordBytes(recs + [r]) == RecordBytes(recs) + PutRecord(r)
    ensures NameBytes(recs + [r]) == NameBytes(recs) + (NameOf(r) + [0])
  {
    assert (recs + [r])[..|recs|] == recs;
    assert NamesOf(recs + [r])[..|recs|] == NamesOf(recs);
  }

  lemma Regroup(a: seq<byte>, b: seq<byte>, c: seq<byte>)
    ensures (a + b) + c == a + (b + c)
  {
  }

  // ----- the table, and the two routines -----

  class Table {
    const record: array<Record>
    var nextId: nat

    ghost predicate Valid()
      reads this
    {
      record.Length == BOOTSTAGE_ID_COUNT
    }

    /** append_data: the cursor always moves; the bytes are written only if they fit. */
    method AppendData(base: array<byte>, ptr: nat, end: int, data: seq<byte>) returns (ptr': nat)
      requires end <= base.Length
      modifies base
      ensures ptr' == ptr + |data|
      ensures ptr' <= end ==> base[..] == old(base[..ptr]) + data + old(base[ptr'..])
      ensures ptr' > end ==> base[..] == old(base[..])
    {
      ptr' := ptr + |data|;
      if ptr' > end {
        return;
      }
      for i := 0 to |data|
        invariant base[..] == old(base[..ptr]) + data[..i] + old(base[ptr + i..])
      {
        base[ptr + i] := data[i];
      }
    }

    /** A stash in progress: header and `done` are in place as far as they fit; bytes from `end` on are
        untouched in any case. */
    ghost predicate Stashing(buf: seq<byte>, before: seq<byte>, hdr: seq<byte>, done: seq<byte>, ptr: nat, end: nat) {
      && |buf| == |before| && |hdr| <= end <= |buf| && ptr == |hdr| + |done|
      && if ptr <= end then buf == hdr + done + before[ptr..] else hdr <= buf && buf[end..] == before[end..]
    }

    method AppendItem(base: array<byte>, ptr: nat, end: nat, data: seq<byte>,
                      ghost before: seq<byte>, ghost hdr: seq<byte>, ghost done: seq<byte>)
      returns (ptr': nat)
      requires Stashing(base[..], before, hdr, done, ptr, end)
      modifies base
      ensures Stashing(base[..], before, hdr, done + data, ptr', end)
    {
      ghost var buf := base[..];
      ptr' := AppendData(base, ptr, end, data);
      if ptr' <= end {
        assert base[..] == buf[..ptr] + data + buf[ptr'..];
        assert buf[..ptr] == hdr + done && buf[ptr'..] == before[ptr'..];
        assert base[..] == hdr + (done + data) + before[ptr'..];
      } else if ptr <= end {
        assert buf[end..] == before[end..];
      }
    }

    /** Number of records with a time. */
    ghost function Count(): u32
      requires Valid()
      reads this, record
    {
      LiveIsNoLonger(record[..]);
      |Live(record[..])|
    }

    method CountLive() returns (count: nat)
      requires Valid()
      ensures count == Count()
    {
      ghost var recs := record[..];
      count := 0;
      for id := 0 to BOOTSTAGE_ID_COUNT
        invariant count == |Live(recs[..id])|
      {
        LiveStep(recs, id);
        if record[id].timeUs != 0 {
          count := count + 1;
        }
      }
      assert recs[..BOOTSTAGE_ID_COUNT] == recs;
    }

    method AppendRecords(base: array<byte>, ptr0: nat, end: nat, ghost before: seq<byte>, ghost hdr: seq<byte>)
      returns (ptr: nat)
      requires Valid() && Stashing(base[..], before, hdr, [], ptr0, end)
      modifies base
      ensures Stashing(base[..], before, hdr, RecordBytes(Live(record[..])), ptr, end)
    {
      ghost var recs, done: seq<byte> := record[..], [];
      ptr := ptr0;
      for id := 0 to BOOTSTAGE_ID_COUNT
        invariant done == RecordBytes(Live(recs[..id]))
        invariant Stashing(base[..], before, hdr, done, ptr, end)
      {
        LiveStep(recs, id);
        if record[id].timeUs != 0 {
          BytesStep(Live(recs[..id]), recs[id]);
          ptr := AppendItem(base, ptr, end, PutRecord(record[id]), before, hdr, done);
          done := done + PutRecord(record[id]);
        }
      }
      assert recs[..BOOTSTAGE_ID_COUNT] == recs;
    }

    method AppendNames(base: array<byte>, ptr0: nat, end: nat, ghost before: seq<byte>, ghost hdr: seq<byte>,
                       ghost first: seq<byte>)
      returns (ptr: nat)
      requires Valid() && Stashing(base[..], before, hdr, first, ptr0, end)
      modifies base
      ensures Stashing(base[..], before, hdr, first + NameBytes(Live(record[..])), ptr, end)
    {
      ghost var recs, done: seq<byte> := record[..], first;
      ptr := ptr0;
      for id := 0 to BOOTSTAGE_ID_COUNT
        invariant done == first + NameBytes(Live(recs[..id]))
        invariant Stashing(base[..], before, hdr, done, ptr, end)
      {
        LiveStep(recs, id);
        if record[id].timeUs != 0 {
          BytesStep(Live(recs[..id]), recs[id]);
          var name := NameOf(record[id]) + [0];
          ptr := AppendItem(base, ptr, end, name, before, hdr, done);
          Regroup(first, NameBytes(Live(recs[..id])), name);
          done := done + name;
        }
      }
      assert recs[..BOOTSTAGE_ID_COUNT] == recs;
    }

    method WriteHeader(base: array<byte>, count: u32)
      requires base.Length >= HDR_SIZE
      modifies base
      ensures base[..] == Header(count, 0) + old(base[HDR_SIZE..])
    {
      ghost var before := base[..];
      var p := AppendData(base, 0, base.Length, Put32(BOOTSTAGE_VERSION));
      assert base[..] == Put32(BOOTSTAGE_VERSION) + before[4..];
      p := AppendData(base, p, base.Length, Put32(count));
      assert base[..] == Put32(BOOTSTAGE_VERSION) + Put32(count) + before[8..];
      p := AppendData(base, p, base.Length, Put32(0));
      assert base[..] == Put32(BOOTSTAGE_VERSION) + Put32(count) + Put32(0) + before[12..];
      p := AppendData(base, p, base.Length, Put32(BOOTSTAGE_MAGIC));
    }

    /** Header, records and names, as far as they fit; the header still says size 0. */
    method WriteImage(base: array<byte>, size: nat) returns (count: u32, ptr: nat)
      requires Valid() && HDR_SIZE <= size <= base.Length
      modifies base
      ensures count == Count()
      ensures Stashing(base[..], old(base[..]), Header(count, 0), Payload(record[..]), ptr, size)
    {
      ghost var before := base[..];
      var n := CountLive();
      count := n;
      WriteHeader(base, count);
      ptr := AppendRecords(base, HDR_SIZE, size, before, Header(count, 0));
      ptr := AppendNames(base, ptr, size, before, Header(count, 0), RecordBytes(Live(record[..])));
    }

    /** bootstage_stash into the first `size` bytes at `base`. */
    method Stash(base: array<byte>, size: int) returns (ret: int)
      requires Valid() && size <= base.Length && size < 0x8000_0000
      modifies base
      // success exactly when everything fits
      ensures ret == if HDR_SIZE + |Payload(record[..])| <= size then 0 else -1
      // then the buffer starts with the image, and the rest is untouched
      ensures ret == 0 ==> var total := HDR_SIZE + |Payload(record[..])|;
        base[..] == Header(Count(), total) + Payload(record[..]) + old(base[..])[total..]
      ensures ret == 0 ==> Holds(base[..], record[..])
      // otherwise a header with size 0 is left, if there was room for it
      ensures ret == -1 && size < HDR_SIZE ==> base[..] == old(base[..])
      ensures ret == -1 && HDR_SIZE <= size ==> Header(Count(), 0) <= base[..]
      // and in no case is a byte past the end written
      ensures ret == -1 && HDR_SIZE <= size ==> base[..][size..] == old(base[..])[size..]
    {
      if size < HDR_SIZE {
        return -1;
      }
      var count, ptr := WriteImage(base, size);
      if ptr > size {
        return -1;
      }
      Finish(base, count, ptr, size, old(base[..]));
      ret := 0;
    }

    /** The size goes into the header. */
    method Finish(base: array<byte>, count: u32, total: u32, size: nat, ghost before: seq<byte>)
      requires Valid() && count == Count() && total <= size < 0x8000_0000
      requires Stashing(base[..], before, Header(count, 0), Payload(record[..]), total, size)
      modifies base
      ensures base[..] == Header(count, total) + Payload(record[..]) + before[total..]
      ensures Holds(base[..], record[..])
    {
      ghost var rest := Payload(record[..]) + before[total..];
      assert base[..] == Header(count, 0) + rest;
      WriteSize(base, count, total, rest);
      assert base[..] == Header(count, total) + Payload(record[..]) + before[total..];
      ImageIsHeld(base[..], record[..], before[total..]);
    }

    method WriteSize(base: array<byte>, count: u32, total: u32, ghost rest: seq<byte>)
      requires base[..] == Header(count, 0) + rest
      modifies base
      ensures base[..] == Header(count, total) + rest
    {
      var p := AppendData(base, 8, base.Length, Put32(total));
    }

    /** bootstage_unstash from `base`, the memory from address `addr` on; a size of -1 means that the end
        of the buffer is not known. Rejected and Restored are the return values -1 and 0. */
    method Unstash(base: array<byte>, size: int, addr: u32) returns (ret: Ending)
      requires Valid() && nextId < 0x8000_0000 && base.Length <= 0x1_0000_0000
      modifies this`nextId, record
      ensures ret == EndingOf(base[..], size, addr, old(nextId))
      ensures ret != Restored ==> record[..] == old(record[..]) && nextId == old(nextId)
      ensures ret == Restored ==> IsMarked(base[..])
      ensures ret == Restored ==> IsIntact(base[..]) && var n := HdrCount(base[..]);
        && nextId == old(nextId) + n <= BOOTSTAGE_ID_COUNT
        && record[..] == Spliced(old(record[..]), old(nextId), AllDecoded(base[..], addr))
    {
      if base.Length < HDR_SIZE {
        return if HDR_SIZE > Limit(size, addr) then Rejected else Overran;
      }
      var ok := Check(base, size, addr);
      if !ok {
        return Rejected;
      }
      if !IsIntact(base[..]) {
        return Overran;
      }
      IntactFits(base[..], size, addr, nextId);
      AcceptedIsMarked(base[..], size, addr, nextId);
      Restore(base, addr);
      ret := Restored;
    }

    /** The tests, in the order in which they are made. */
    method Check(base: array<byte>, size: int, addr: u32) returns (ok: bool)
      requires HDR_SIZE <= base.Length
      ensures ok == Accepts(base[..], size, addr, nextId)
    {
      var limit := Limit(size, addr);
      if HDR_SIZE > limit {
        return false;
      }
      if Get32(base[..], 12) != BOOTSTAGE_MAGIC {
        return false;
      }
      if Get32(base[..], 8) > limit {
        return false;
      }
      var count := Get32(base[..], 4);
      if count * REC_SIZE % 0x1_0000_0000 > Get32(base[..], 8) {
        return false;
      }
      if Get32(base[..], 0) != BOOTSTAGE_VERSION {
        return false;
      }
      ok := (nextId + count) % 0x1_0000_0000 <= BOOTSTAGE_ID_COUNT;
    }

    /** The records of the image, then their names, go into the table after those that are there. */
    method Restore(base: array<byte>, addr: u32)
      requires Valid() && HDR_SIZE <= base.Length && IsIntact(base[..])
      requires nextId + HdrCount(base[..]) <= BOOTSTAGE_ID_COUNT
      modifies this`nextId, record
      ensures nextId == old(nextId) + HdrCount(base[..])
      ensures record[..] == Spliced(old(record[..]), old(nextId), AllDecoded(base[..], addr))
    {
      ghost var was, new' := record[..], AllDecoded(base[..], addr);
      var count := HdrCount(base[..]);
      ReadRecords(base, count);
      ReadNames(base, count, addr);
      SplicedByIndex(was, record[..], nextId, new');
      nextId := nextId + count;
    }

    method ReadRecords(base: array<byte>, count: nat)
      requires Valid() && nextId + count <= BOOTSTAGE_ID_COUNT && HDR_SIZE + REC_SIZE * count <= base.Length
      modifies record
      ensures forall i :: nextId <= i < nextId + count ==> record[i] == RawRecord(base[..], i - nextId)
      ensures forall i :: (0 <= i < nextId || nextId + count <= i < BOOTSTAGE_ID_COUNT) ==> record[i] == old(record[i])
    {
      for id := 0 to count
        invariant forall i :: nextId <= i < nextId + id ==> record[i] == RawRecord(base[..], i - nextId)
        invariant forall i :: (0 <= i < nextId || nextId + id <= i < BOOTSTAGE_ID_COUNT) ==> record[i] == old(record[i])
      {
        record[nextId + id] := RawRecord(base[..], id);
      }
    }

    method ReadNames(base: array<byte>, count: nat, addr: u32)
      requires Valid() && nextId + count <= BOOTSTAGE_ID_COUNT
      modifies record
      ensures record[..] == WithNames(old(record[..]), nextId, count, base[..], addr)
    {
      var start := HDR_SIZE + REC_SIZE * count;
      var ptr := start;
      ghost var b, was := base[..], record[..];
      ghost var want := WithNames(was, nextId, count, b, addr);
      for id := 0 to count
        invariant ptr == NameOffset(b, start, id)
        invariant forall i :: 0 <= i < nextId + id ==> record[i] == want[i]
        invariant forall i :: nextId + id <= i < BOOTSTAGE_ID_COUNT ==> record[i] == was[i]
      {
        ptr := ReadName(base, nextId + id, ptr, addr, start, id);
      }
    }

    method ReadName(base: array<byte>, i: nat, ptr: nat, addr: u32, ghost start: nat, ghost id: nat) returns (next: nat)
      requires Valid() && i < BOOTSTAGE_ID_COUNT && ptr == NameOffset(base[..], start, id)
      modifies record
      ensures record[i] == NamedNth(old(record[i]), base[..], start, id, addr)
      ensures forall j :: 0 <= j < BOOTSTAGE_ID_COUNT && j != i ==> record[j] == old(record[j])
      ensures next == NameOffset(base[..], start, id + 1)
    {
      var name := CStringAt(base[..], ptr);
      record[i] := record[i].(name := Some(name), nameAddr := (addr + ptr) % 0x1_0000_0000);
      next := ptr + |name| + 1;
    }
  }

  // ----- what an image says -----

  /** The string at a place: up to its zero. */
  function CStringAt(b: seq<byte>, at: nat): CString
    decreases |b| - at
  {
    if at >= |b| || b[at] == 0 then [] else [b[at]] + CStringAt(b, at + 1)
  }

  /** Just after the string and its zero. */
  function PastString(b: seq<byte>, at: nat): (next: nat)
    ensures next > at
  {
    at + |CStringAt(b, at)| + 1
  }

  /** Where string k is, the first being at `at`. */
  function NameOffset(b: seq<byte>, at: nat, k: nat): (offset: nat)
    ensures offset >= at
  {
    if k == 0 then at else PastString(b, NameOffset(b, at, k - 1))
  }

  function HdrCount(b: seq<byte>): u32
    requires |b| >= HDR_SIZE
  {
    Get32(b, 4)
  }

  /** The tests that unstash makes, in its 32-bit arithmetic. */
  predicate Accepts(b: seq<byte>, size: int, addr: u32, nextId: nat)
    requires |b| >= HDR_SIZE
  {
    PassesTests(Get32(b, 0), HdrCount(b), Get32(b, 8), Get32(b, 12), Limit(size, addr), nextId)
  }

  /** How many bytes there are to the end of the buffer. */
  function Limit(size: int, addr: u32): int { if size == -1 then 0xffff_ffff - addr else size }

  /** How an unstash can end. Overran stands for what happens when an accepted image leads past the end
      of the memory, which the routine does not notice. */
  datatype Ending = Rejected | Restored | Overran

  function EndingOf(b: seq<byte>, size: int, addr: u32, nextId: nat): Ending {
    if HDR_SIZE > Limit(size, addr) then Rejected
    else if |b| < HDR_SIZE then Overran
    else if !Accepts(b, size, addr, nextId) then Rejected
    else if IsIntact(b) then Restored else Overran
  }

  predicate PassesTests(version: u32, count: u32, size: u32, magic: u32, limit: int, nextId: nat) {
    && HDR_SIZE <= limit
    && magic == BOOTSTAGE_MAGIC
    && size <= limit
    && count * REC_SIZE % 0x1_0000_0000 <= size
    && version == BOOTSTAGE_VERSION
    && (nextId + count) % 0x1_0000_0000 <= BOOTSTAGE_ID_COUNT
  }

  /** The bytes of version 0 and of the magic number 0xb00757a3 are where they belong. */
  predicate IsMarked(b: seq<byte>) {
    |b| >= 16 && b[0..4] == [0, 0, 0, 0] && b[12..16] == [0xa3, 0x57, 0x07, 0xb0]
  }

  lemma LowByteIs(a: int, b: int, x: byte, y: byte)
    requires x + 256 * a == y + 256 * b
    ensures x == y && a == b
  {
  }

  lemma WordBytes(b: seq<byte>, at: nat, w0: byte, w1: byte, w2: byte, w3: byte)
    requires at + 4 <= |b|
    ensures Get32(b, at) == w0 + 256 * w1 + 65536 * w2 + 16777216 * w3 <==> b[at..at + 4] == [w0, w1, w2, w3]
  {
    var s := b[at..at + 4];
    assert s == [b[at], b[at + 1], b[at + 2], b[at + 3]];
    if Get32(b, at) == w0 + 256 * w1 + 65536 * w2 + 16777216 * w3 {
      var b1: int, b2: int, b3: int, v1: int, v2: int, v3: int := b[at + 1], b[at + 2], b[at + 3], w1, w2, w3;
      LowByteIs(b1 + 256 * b2 + 65536 * b3, v1 + 256 * v2 + 65536 * v3, b[at], w0);
      LowByteIs(b2 + 256 * b3, v2 + 256 * v3, b[at + 1], w1);
      LowByteIs(b3, v3, b[at + 2], w2);
    }
  }

  lemma MarkedIff(b: seq<byte>)
    requires |b| >= 16
    ensures IsMarked(b) <==> Get32(b, 0) == BOOTSTAGE_VERSION && Get32(b, 12) == BOOTSTAGE_MAGIC
  {
    WordBytes(b, 0, 0, 0, 0, 0);
    WordBytes(b, 12, 0xa3, 0x57, 0x07, 0xb0);
  }

  /** Nothing without them is accepted. */
  lemma AcceptedIsMarked(b: seq<byte>, size: int, addr: u32, nextId: nat)
    requires |b| >= HDR_SIZE && Accepts(b, size, addr, nextId)
    ensures IsMarked(b)
  {
    MarkedIff(b);
  }

  /** Changing any byte of the version or the magic number of an image makes sure that it is rejected. */
  lemma TamperedIsRejected(b: seq<byte>, at: nat, x: byte, size: int, addr: u32, nextId: nat)
    requires IsMarked(b) && (at < 4 || 12 <= at < 16) && x != b[at]
    ensures EndingOf(b[at := x], size, addr, nextId) == Rejected
  {
    var c := b[at := x];
    assert if at < 4 then c[0..4][at] != b[0..4][at] else c[12..16][at - 12] != b[12..16][at - 12];
    assert !IsMarked(c);
    MarkedIff(c);
  }

  /** In plain numbers: for a buffer that does not end at the very top of the addresses, an image is
      accepted exactly if it is marked, header and size fit, and so do the records, in the size and
      in the table. */
  lemma AcceptsIff(b: seq<byte>, size: int, addr: u32, nextId: nat)
    requires |b| >= 16 && nextId <= 191 && Limit(size, addr) + 20 * nextId < 0x1_0000_0000
    ensures var count: int := b[4] as int + 256 * b[5] as int + 65536 * b[6] as int + 16777216 * b[7] as int;
            var total: int := b[8] as int + 256 * b[9] as int + 65536 * b[10] as int + 16777216 * b[11] as int;
            var room := if size == -1 then 0xffff_ffff - addr else size;
            Accepts(b, size, addr, nextId) <==>
              IsMarked(b) && 16 <= room && total <= room && 20 * count <= total && nextId + count <= 191
  {
    MarkedIff(b);
    if Accepts(b, size, addr, nextId) {
      AcceptedFits(b, size, addr, nextId);
    }
  }

  /** An image that is intact has no more records than there is room for. */
  lemma IntactFits(b: seq<byte>, size: int, addr: u32, nextId: nat)
    requires HDR_SIZE <= |b| <= 0x1_0000_0000 && nextId < 0x8000_0000
    requires Accepts(b, size, addr, nextId) && IsIntact(b)
    ensures nextId + HdrCount(b) <= BOOTSTAGE_ID_COUNT
  {
  }

  /** Intact or not, nothing that is accepted overruns the table, exactly if the buffer ends so early that
      a count which wraps around cannot pass for a small one, as every buffer of known size does. */
  lemma AcceptedFitsIff(limit: int, nextId: nat)
    requires HDR_SIZE <= limit < 0x1_0000_0000 && nextId <= BOOTSTAGE_ID_COUNT
    ensures (forall version, count, size, magic :: PassesTests(version, count, size, magic, limit, nextId) ==>
               nextId + count <= BOOTSTAGE_ID_COUNT)
        <==> limit + REC_SIZE * nextId < 0x1_0000_0000
  {
    if limit + REC_SIZE * nextId >= 0x1_0000_0000 {
      WrappedCountPasses(limit, nextId);
    } else {
      forall version, count, size, magic | PassesTests(version, count, size, magic, limit, nextId)
        ensures nextId + count <= BOOTSTAGE_ID_COUNT
      {
        CountFits(count, size, limit, nextId);
      }
    }
  }

  lemma WrappedCountPasses(limit: int, nextId: nat)
    requires HDR_SIZE <= limit < 0x1_0000_0000 && nextId <= BOOTSTAGE_ID_COUNT
    requires limit + REC_SIZE * nextId >= 0x1_0000_0000
    ensures PassesTests(BOOTSTAGE_VERSION, 0x1_0000_0000 - nextId, limit, BOOTSTAGE_MAGIC, limit, nextId)
  {
    var count := 0x1_0000_0000 - nextId;
    assert count * REC_SIZE == 19 * 0x1_0000_0000 + (0x1_0000_0000 - REC_SIZE * nextId);
  }

  lemma CountFits(count: u32, size: u32, limit: int, nextId: nat)
    requires size <= limit && limit + REC_SIZE * nextId < 0x1_0000_0000 && nextId <= BOOTSTAGE_ID_COUNT
    requires count * REC_SIZE % 0x1_0000_0000 <= size
    requires (nextId + count) % 0x1_0000_0000 <= BOOTSTAGE_ID_COUNT
    ensures nextId + count <= BOOTSTAGE_ID_COUNT
  {
  }

  lemma AcceptedFits(b: seq<byte>, size: int, addr: u32, nextId: nat)
    requires |b| >= HDR_SIZE && nextId <= BOOTSTAGE_ID_COUNT && Accepts(b, size, addr, nextId)
    requires Limit(size, addr) + REC_SIZE * nextId < 0x1_0000_0000
    ensures nextId + HdrCount(b) <= BOOTSTAGE_ID_COUNT
  {
    CountFits(HdrCount(b), Get32(b, 8), Limit(size, addr), nextId);
  }

  /** The test of the count against the size forgets the header: the records of an accepted image can run
      past its size by up to the header, and lie inside it exactly if the size less the header would
      pass the test. */
  lemma RecordsInsideIff(b: seq<byte>, size: int, addr: u32, nextId: nat)
    requires |b| >= HDR_SIZE && nextId <= BOOTSTAGE_ID_COUNT && Accepts(b, size, addr, nextId)
    requires Limit(size, addr) + REC_SIZE * nextId < 0x1_0000_0000
    ensures NamesAt(HdrCount(b)) <= Get32(b, 8) + HDR_SIZE
    ensures NamesAt(HdrCount(b)) <= Get32(b, 8) <==>
            HdrCount(b) * REC_SIZE % 0x1_0000_0000 <= Get32(b, 8) - HDR_SIZE
  {
    AcceptedFits(b, size, addr, nextId);
  }

  /** So 20 bytes that claim one record are accepted. */
  lemma ShortImageIsAccepted(b: seq<byte>, addr: u32)
    requires |b| == 20 && Header(1, 20) <= b
    ensures Accepts(b, 20, addr, BOOTSTAGE_ID_USER) && !IsIntact(b) && NamesAt(1) > 20
  {
    HeaderReadsBack(b, 1, 20);
  }

  /** recs with what stands from `at` on overwritten by `those`. */
  function Spliced(recs: seq<Record>, at: nat, those: seq<Record>): seq<Record>
    requires at + |those| <= |recs|
  {
    recs[..at] + those + recs[at + |those|..]
  }

  lemma SplicedByIndex(was: seq<Record>, now: seq<Record>, at: nat, those: seq<Record>)
    requires |now| == |was| && at + |those| <= |was|
    requires forall i :: at <= i < at + |those| ==> now[i] == those[i - at]
    requires forall i :: (0 <= i < at || at + |those| <= i < |was|) ==> now[i] == was[i]
    ensures now == Spliced(was, at, those)
  {
  }

  /** All records and names lie inside the buffer. */
  predicate IsIntact(b: seq<byte>)
    requires |b| >= HDR_SIZE
  {
    && HDR_SIZE + REC_SIZE * HdrCount(b) <= |b|
    && NameOffset(b, HDR_SIZE + REC_SIZE * HdrCount(b), HdrCount(b)) <= |b|
  }

  /** Record k of an image, its name still to be read. */
  function RawRecord(b: seq<byte>, k: nat): Record
    requires HDR_SIZE + REC_SIZE * (k + 1) <= |b|
  {
    GetRecord(b, HDR_SIZE + REC_SIZE * k)
  }

  /** r with its name pointer set to place `at` of a buffer that lies at `addr`. */
  function Named(r: Record, b: seq<byte>, at: nat, addr: u32): Record {
    r.(name := Some(CStringAt(b, at)), nameAddr := (addr + at) % 0x1_0000_0000)
  }

  /** r with its name pointer set to string k of those that begin at `start`. */
  function NamedNth(r: Record, b: seq<byte>, start: nat, k: nat, addr: u32): Record {
    Named(r, b, NameOffset(b, start, k), addr)
  }

  /** recs with strings 0, 1, ... as the names of the `count` records from `from` on. */
  function WithNames(recs: seq<Record>, from: nat, count: nat, b: seq<byte>, addr: u32): (r: seq<Record>)
    requires from + count <= |recs|
    ensures |r| == |recs|
    ensures forall i :: from <= i < from + count ==>
      r[i] == NamedNth(recs[i], b, HDR_SIZE + REC_SIZE * count, i - from, addr)
    ensures forall i :: (0 <= i < from || from + count <= i < |recs|) ==> r[i] == recs[i]
  {
    seq(|recs|, i requires 0 <= i < |recs| =>
      if from <= i < from + count then NamedNth(recs[i], b, HDR_SIZE + REC_SIZE * count, i - from, addr) else recs[i])
  }

  /** Record k of an image, as it arrives in the table. */
  function Decoded(b: seq<byte>, addr: u32, k: nat): Record
    requires |b| >= HDR_SIZE && HDR_SIZE + REC_SIZE * (k + 1) <= |b|
  {
    NamedNth(RawRecord(b, k), b, HDR_SIZE + REC_SIZE * HdrCount(b), k, addr)
  }

  /** All records of an intact image. */
  function AllDecoded(b: seq<byte>, addr: u32): (recs: seq<Record>)
    requires |b| >= HDR_SIZE && IsIntact(b)
    ensures |recs| == HdrCount(b)
  {
    seq(HdrCount(b), k requires 0 <= k < HdrCount(b) => Decoded(b, addr, k))
  }

  // ----- what was stashed comes back -----

  lemma {:induction false} RecordSlice(recs: seq<Record>, k: nat)
    requires k < |recs|
    ensures RecordBytes(recs)[REC_SIZE * k..REC_SIZE * k + REC_SIZE] == PutRecord(recs[k])
  {
    if k < |recs| - 1 {
      var init := recs[..|recs| - 1];
      RecordSlice(init, k);
      assert RecordBytes(recs)[..REC_SIZE * |init|] == RecordBytes(init);
      assert RecordBytes(recs)[REC_SIZE * k..REC_SIZE * k + REC_SIZE]
          == RecordBytes(init)[REC_SIZE * k..REC_SIZE * k + REC_SIZE];
    }
  }

  /** A string followed by its zero is read back. */
  lemma {:induction false} StringReadsBack(b: seq<byte>, at: nat, name: CString)
    requires at + |name| + 1 <= |b| && b[at..at + |name| + 1] == name + [0]
    ensures CStringAt(b, at) == name
    decreases |name|
  {
    var n := |name|;
    var slice := b[at..at + n + 1];
    if n == 0 {
      assert slice[0] == b[at];
    } else {
      assert slice[0] == b[at] == name[0];
      assert b[at + 1..at + 1 + (n - 1) + 1] == slice[1..] == name[1..] + [0];
      StringReadsBack(b, at + 1, name[1..]);
      assert name == [name[0]] + name[1..];
    }
  }

  lemma {:induction false} JoinedPrefix(names: seq<CString>, k: nat)
    requires k <= |names|
    ensures Joined(names[..k]) <= Joined(names)
  {
    if k == |names| {
      assert names[..k] == names;
    } else {
      var init := names[..|names| - 1];
      JoinedPrefix(init, k);
      assert init[..k] == names[..k];
    }
  }

  /** These bytes lie in the buffer from `at` on. */
  ghost predicate IsAt(b: seq<byte>, at: nat, bytes: seq<byte>) {
    at + |bytes| <= |b| && b[at..at + |bytes|] == bytes
  }

  /** Where string k begins when the first is at `at`. */
  function StringStart(names: seq<CString>, at: nat, k: nat): nat
    requires k <= |names|
  {
    at + |Joined(names[..k])|
  }

  lemma NextStart(names: seq<CString>, at: nat, k: nat)
    requires k < |names|
    ensures StringStart(names, at, k + 1) == StringStart(names, at, k) + |names[k]| + 1
  {
    assert names[..k + 1][..k] == names[..k];
  }

  lemma StartIsInside(names: seq<CString>, b: seq<byte>, at: nat, k: nat)
    requires IsAt(b, at, Joined(names)) && k <= |names|
    ensures StringStart(names, at, k) <= |b|
  {
    JoinedPrefix(names, k);
  }

  lemma JoinedStep(names: seq<CString>, k: nat)
    requires k < |names|
    ensures Joined(names[..k + 1]) == Joined(names[..k]) + (names[k] + [0])
  {
    assert names[..k + 1][..k] == names[..k];
  }

  /** String k with its zero lies where it starts. */
  lemma JoinedAt(names: seq<CString>, k: nat)
    requires k < |names|
    ensures IsAt(Joined(names), StringStart(names, 0, k), names[k] + [0])
  {
    JoinedStep(names, k);
    JoinedPrefix(names, k + 1);
    PieceIsAt(Joined(names[..k]), names[k] + [0], Joined(names));
  }

  lemma PieceIsAt(before: seq<byte>, piece: seq<byte>, all: seq<byte>)
    requires before + piece <= all
    ensures IsAt(all, |before|, piece)
  {
  }

  lemma StringInside(b: seq<byte>, at: nat, all: seq<byte>, off: nat, name: CString)
    requires IsAt(b, at, all) && IsAt(all, off, name + [0])
    ensures CStringAt(b, at + off) == name
  {
    SliceOfSlice(b, at, |all|, off, |name| + 1);
    StringReadsBack(b, at + off, name);
  }

  /** Where string k begins, it is read back. */
  lemma StringIsName(names: seq<CString>, b: seq<byte>, at: nat, k: nat)
    requires IsAt(b, at, Joined(names)) && k < |names|
    ensures CStringAt(b, StringStart(names, at, k)) == names[k]
  {
    JoinedAt(names, k);
    StringInside(b, at, Joined(names), StringStart(names, 0, k), names[k]);
  }

  /** The strings are found one after the other. */
  lemma {:induction false} StringsReadBack(names: seq<CString>, b: seq<byte>, at: nat, k: nat)
    requires IsAt(b, at, Joined(names)) && k <= |names|
    ensures NameOffset(b, at, k) == StringStart(names, at, k) <= |b|
  {
    StartIsInside(names, b, at, k);
    if k > 0 {
      StringsReadBack(names, b, at, k - 1);
      StringIsName(names, b, at, k - 1);
      NextStart(names, at, k - 1);
    }
  }

  lemma StringIsInside(names: seq<CString>, b: seq<byte>, at: nat, k: nat)
    requires IsAt(b, at, Joined(names)) && k < |names|
    ensures NameOffset(b, at, k) < |b| && CStringAt(b, NameOffset(b, at, k)) == names[k]
  {
    StringsReadBack(names, b, at, k);
    StringIsName(names, b, at, k);
    NextStart(names, at, k);
    StartIsInside(names, b, at, k + 1);
  }

  /** What a successful stash leaves in the buffer. */
  ghost predicate Holds(b: seq<byte>, recs: seq<Record>) {
    var n, total := |Live(recs)|, HDR_SIZE + |Payload(recs)|;
    n < 0x1_0000_0000 && total < 0x8000_0000 && Header(n, total) + Payload(recs) <= b
  }

  lemma HeaderReadsBack(b: seq<byte>, n: u32, total: u32)
    requires Header(n, total) <= b
    ensures Get32(b, 0) == BOOTSTAGE_VERSION && Get32(b, 4) == n
    ensures Get32(b, 8) == total && Get32(b, 12) == BOOTSTAGE_MAGIC
  {
    var h := Header(n, total);
    assert b[0..4] == h[0..4] == Put32(BOOTSTAGE_VERSION);
    assert b[4..8] == h[4..8] == Put32(n);
    assert b[8..12] == h[8..12] == Put32(total);
    assert b[12..16] == h[12..16] == Put32(BOOTSTAGE_MAGIC);
    WordRoundTrip(BOOTSTAGE_VERSION, b, 0);
    WordRoundTrip(n, b, 4);
    WordRoundTrip(total, b, 8);
    WordRoundTrip(BOOTSTAGE_MAGIC, b, 12);
  }

  function NamesAt(n: nat): nat { HDR_SIZE + REC_SIZE * n }

  /** An image of the records `live`, part by part. */
  ghost predicate Carries(b: seq<byte>, live: seq<Record>) {
    && |b| >= HDR_SIZE && IsAt(b, NamesAt(|live|), NameBytes(live))
    && Get32(b, 0) == BOOTSTAGE_VERSION && Get32(b, 12) == BOOTSTAGE_MAGIC
    && HdrCount(b) == |live| && Get32(b, 8) == NamesAt(|live|) + |NameBytes(live)|
    && IsAt(b, HDR_SIZE, RecordBytes(live))
  }

  lemma ImageIsHeld(b: seq<byte>, recs: seq<Record>, rest: seq<byte>)
    requires |Live(recs)| < 0x1_0000_0000 && HDR_SIZE + |Payload(recs)| < 0x8000_0000
    requires b == Header(|Live(recs)|, HDR_SIZE + |Payload(recs)|) + Payload(recs) + rest
    ensures Holds(b, recs)
  {
  }

  lemma ThreeParts(b: seq<byte>, h: seq<byte>, p: seq<byte>, q: seq<byte>)
    requires h + (p + q) <= b
    ensures h <= b && IsAt(b, |h|, p) && IsAt(b, |h| + |p|, q)
  {
  }

  lemma StashedIsCarried(b: seq<byte>, recs: seq<Record>)
    requires Holds(b, recs)
    ensures Carries(b, Live(recs)) && NamesAt(|Live(recs)|) + |NameBytes(Live(recs))| == HDR_SIZE + |Payload(recs)|
  {
    var live := Live(recs);
    ThreeParts(b, Header(|live|, HDR_SIZE + |Payload(recs)|), RecordBytes(live), NameBytes(live));
    PartsAreCarried(b, live, HDR_SIZE + |Payload(recs)|);
  }

  lemma PartsAreCarried(b: seq<byte>, live: seq<Record>, total: u32)
    requires |live| < 0x1_0000_0000 && total == NamesAt(|live|) + |NameBytes(live)| && Header(|live|, total) <= b
    requires IsAt(b, HDR_SIZE, RecordBytes(live)) && IsAt(b, NamesAt(|live|), NameBytes(live))
    ensures Carries(b, live)
  {
    HeaderReadsBack(b, |live|, total);
  }

  lemma CarriedIsIntact(b: seq<byte>, live: seq<Record>)
    requires Carries(b, live)
    ensures IsIntact(b)
  {
    StringsReadBack(NamesOf(live), b, NamesAt(|live|), |live|);
  }

  lemma CarriedIsAccepted(b: seq<byte>, live: seq<Record>, size: int, addr: u32, nextId: nat)
    requires Carries(b, live) && nextId + |live| <= BOOTSTAGE_ID_COUNT
    requires NamesAt(|live|) + |NameBytes(live)| <= Limit(size, addr)
    ensures Accepts(b, size, addr, nextId)
  {
  }

  /** The record bytes are where record k is read from. */
  lemma CarriedRecord(b: seq<byte>, live: seq<Record>, k: nat)
    requires Carries(b, live) && k < |live|
    ensures HDR_SIZE + REC_SIZE * (k + 1) <= |b| && RawRecord(b, k) == live[k].(name := None)
  {
    RecordSlice(live, k);
    SliceOfSlice(b, HDR_SIZE, REC_SIZE * |live|, REC_SIZE * k, REC_SIZE);
    RecordRoundTrip(live[k], b, HDR_SIZE + REC_SIZE * k);
  }

  /** String k of the names is the name of record k. */
  lemma CarriedName(b: seq<byte>, live: seq<Record>, k: nat)
    requires Carries(b, live) && k < |live|
    ensures var at := NameOffset(b, NamesAt(|live|), k); at < |b| && CStringAt(b, at) == NameOf(live[k])
  {
    StringIsInside(NamesOf(live), b, NamesAt(|live|), k);
  }

  /** r is orig with its name written out and its name pointer at that name in the buffer. */
  predicate IsCopy(r: Record, orig: Record, b: seq<byte>, addr: u32) {
    && r == orig.(name := r.name, nameAddr := r.nameAddr) && r.name.Some? && IsName(r.name.value, orig)
    && (addr + |b| <= 0x1_0000_0000 ==> addr <= r.nameAddr && CStringAt(b, r.nameAddr - addr) == r.name.value)
  }

  lemma CarriedIsDecoded(b: seq<byte>, live: seq<Record>, addr: u32, k: nat)
    requires Carries(b, live) && IsIntact(b) && k < |live|
    ensures IsCopy(AllDecoded(b, addr)[k], live[k], b, addr)
  {
    CarriedRecord(b, live, k);
    CarriedName(b, live, k);
    NameOfIsName(live[k]);
    DecodedFields(b, addr, k);
  }

  lemma DecodedFields(b: seq<byte>, addr: u32, k: nat)
    requires |b| >= HDR_SIZE && IsIntact(b) && k < HdrCount(b)
    ensures var r, at := AllDecoded(b, addr)[k], NameOffset(b, HDR_SIZE + REC_SIZE * HdrCount(b), k);
            && HDR_SIZE + REC_SIZE * (k + 1) <= |b|
            && r == RawRecord(b, k).(name := Some(CStringAt(b, at)), nameAddr := r.nameAddr)
            && (addr + at < 0x1_0000_0000 ==> r.nameAddr == addr + at)
  {
  }

  /** Unstashing what was stashed, into a table with room for it, brings every record with a time back,
      in order: all fields as they were, and the name that get_record_name gave. */
  lemma RoundTrip(b: seq<byte>, recs: seq<Record>, size: int, addr: u32, nextId: nat)
    requires Holds(b, recs) && nextId + |Live(recs)| <= BOOTSTAGE_ID_COUNT
    requires HDR_SIZE + |Payload(recs)| <= Limit(size, addr)
    ensures |b| >= HDR_SIZE && Accepts(b, size, addr, nextId) && IsIntact(b)
    ensures |AllDecoded(b, addr)| == |Live(recs)|
    ensures forall k :: 0 <= k < |Live(recs)| ==> IsCopy(AllDecoded(b, addr)[k], Live(recs)[k], b, addr)
  {
    var live := Live(recs);
    StashedIsCarried(b, recs);
    CarriedIsIntact(b, live);
    CarriedIsAccepted(b, live, size, addr, nextId);
    forall k | 0 <= k < |live|
      ensures IsCopy(AllDecoded(b, addr)[k], live[k], b, addr)
    {
      CarriedIsDecoded(b, live, addr, k);
    }
  }

  /** How much room an image is said to have decides: with a known size, whether the whole image is in it;
      with -1, whether it ends before the last address. */
  lemma RoomDecides(b: seq<byte>, recs: seq<Record>, size: int, addr: u32, nextId: nat)
    requires Holds(b, recs) && nextId + |Live(recs)| <= BOOTSTAGE_ID_COUNT
    ensures var total := HDR_SIZE + |Payload(recs)|;
            && (size >= 0 ==> EndingOf(b, size, addr, nextId) == if total <= size then Restored else Rejected)
            && EndingOf(b, -1, addr, nextId) == if addr + total <= 0xffff_ffff then Restored else Rejected
  {
    RoomFor(b, recs, size, addr, nextId);
    RoomFor(b, recs, -1, addr, nextId);
  }

  lemma RoomFor(b: seq<byte>, recs: seq<Record>, size: int, addr: u32, nextId: nat)
    requires Holds(b, recs) && nextId + |Live(recs)| <= BOOTSTAGE_ID_COUNT
    ensures EndingOf(b, size, addr, nextId) ==
            if HDR_SIZE + |Payload(recs)| <= Limit(size, addr) then Restored else Rejected
  {
    var live := Live(recs);
    StashedIsCarried(b, recs);
    CarriedIsIntact(b, live);
    if HDR_SIZE + |Payload(recs)| <= Limit(size, addr) {
      CarriedIsAccepted(b, live, size, addr, nextId);
    }
  }

  /** The header and a record, byte by byte: words of 32 bits, least significant byte first. */
  predicate IsWordAt(b: seq<byte>, at: nat, x: u32) {
    && at + 4 <= |b| && b[at] == x % 256 && b[at + 1] == x / 256 % 256
    && b[at + 2] == x / 65536 % 256 && b[at + 3] == x / 16777216
  }

  lemma HeaderLayout(count: u32, size: u32)
    ensures var h := Header(count, size);
            && |h| == 16 && IsWordAt(h, 0, 0) && IsWordAt(h, 4, count) && IsWordAt(h, 8, size)
            && IsWordAt(h, 12, 0xb00757a3)
  {
  }

  lemma RecordLayout(r: Record)
    ensures var b := PutRecord(r);
            && |b| == 20 && IsWordAt(b, 0, r.timeUs) && IsWordAt(b, 4, r.startUs) && IsWordAt(b, 8, r.nameAddr)
            && IsWordAt(b, 12, r.flags) && IsWordAt(b, 16, r.id)
  {
  }

  /** Unfinished is what a stash leaves when it runs out of room after its header. It is always rejected:
      it has records, for without any there is nothing to run out of room on, and a size of 0. */
  lemma UnfinishedIsRejected(b: seq<byte>, recs: seq<Record>, room: int, size: int, addr: u32, nextId: nat)
    requires |recs| == BOOTSTAGE_ID_COUNT
    requires HDR_SIZE <= room < HDR_SIZE + |Payload(recs)|
    requires |Live(recs)| < 0x1_0000_0000 && Header(|Live(recs)|, 0) <= b
    ensures !Accepts(b, size, addr, nextId)
  {
    LiveIsNoLonger(recs);
    HeaderReadsBack(b, |Live(recs)|, 0);
    assert Live(recs) != [];
  }
}
