/** The record format of the database file: what an entry becomes, and what is read back from it. */
module Records {
  import opened Util
  import opened Codes
  import opened BufferedFile
  import opened Numbers

  const BUFFER_SIZE: nat := 1024

  /** `struct tm` */
  datatype Time = Time(sec: nat, min: nat, hour: nat, mday: nat, mon: nat, year: int, wday: nat, yday: nat, isdst: int)

  /** `checksum_result`; `kind` 0 marks an unused slot. */
  datatype Checksum = Checksum(kind: nat, bytes: seq<Byte>)

  datatype Extract = Extract(position: nat, bytes: seq<Byte>)

  datatype Section = Section(start: nat, end: nat, checksums: seq<Checksum>, extracts: seq<Extract>)

  datatype FileData = FileData(size: nat, checksums: seq<Checksum>, extracts: seq<Extract>, norm: nat, last: nat, sections: seq<Section>)

  /** The part of `linked_entry` that goes into the file. */
  datatype Record = Record(branchId: seq<Byte>, id: seq<Byte>, parentId: seq<Byte>, kind: nat, childNum: nat, createdBy: nat,
                           fileName: seq<Byte>, tagStr: seq<Byte>, userMsg: seq<Byte>,
                           tod: Option<Time>, tom: Option<Time>, tusr: Option<Time>, data: Option<FileData>)

  // ---------------------------------------------------------------------
  // Reading

  datatype Parsed<+T> = Got(value: T, rest: seq<Byte>) | Fail(code: int) {
    predicate IsFailure() { Fail? }
    function PropagateFailure<U>(): Parsed<U>
      requires Fail?
    {
      Fail(code)
    }
    function Extract(): (T, seq<Byte>)
      requires Got?
    {
      (value, rest)
    }
  }

  function TakeNum(s: seq<Byte>, k: nat): Parsed<nat> {
    if |s| < k then Fail(FILE_END) else Got(Number(s[..k]), s[k..])
  }

  function TakeStr(s: seq<Byte>, n: nat): Parsed<seq<Byte>> {
    if n > BUFFER_SIZE then Fail(BUFFER_NO_SPACE) else if |s| < n then Fail(FILE_END) else Got(s[..n], s[n..])
  }

  lemma NumBack(n: nat, k: nat, rest: seq<Byte>)
    requires n < Pow256(k)
    ensures TakeNum(BigEndian(n, k) + rest, k) == Got(n, rest)
  {
    NumberOfBigEndian(n, k);
    assert (BigEndian(n, k) + rest)[..k] == BigEndian(n, k) && (BigEndian(n, k) + rest)[k..] == rest;
  }

  lemma StrBack(b: seq<Byte>, rest: seq<Byte>)
    requires |b| <= BUFFER_SIZE
    ensures TakeStr(b + rest, |b|) == Got(b, rest)
  {
    assert (b + rest)[..|b|] == b && (b + rest)[|b|..] == rest;
  }

  /** Each encoder puts its bytes in front of `rest`. */
  function EncodeTime(t: Time, rest: seq<Byte>): seq<Byte>
    requires StorableTime(t)
  {
    BigEndian(t.sec, 1) + (BigEndian(t.min, 1) + (BigEndian(t.hour, 1) + (BigEndian(t.mday, 1) + (BigEndian(t.mon, 1)
    + (BigEndian(Unsigned(t.year, 8), 8) + (BigEndian(t.wday, 1) + (BigEndian(t.yday, 2)
    + (BigEndian(Unsigned(Sign(t.isdst), 1), 1) + rest))))))))
  }

  function Sign(v: int): int {
    if v < 0 then -1 else if v == 0 then 0 else 1
  }

  /** A broken-down time whose fields fit their places in the file. */
  predicate StorableTime(t: Time) {
    t.sec < 256 && t.min < 256 && t.hour < 256 && t.mday < 256 && t.mon < 256 && t.wday < 256 && t.yday < 65536
    && IntMin() <= t.year <= IntMax()
  }

  function IntMin(): int { -2147483648 }
  function IntMax(): int { 2147483647 }

  /** The range check of the year exists for the first two times of an entry only. */
  function ParseTime(s: seq<Byte>, checkYear: bool): Parsed<Time> {
    var (sec, s) :- TakeNum(s, 1);
    var (min, s) :- TakeNum(s, 1);
    var (hour, s) :- TakeNum(s, 1);
    var (mday, s) :- TakeNum(s, 1);
    var (mon, s) :- TakeNum(s, 1);
    var (year, s) :- TakeNum(s, 8);
    var year := Numbers.Signed(year, 8);
    if checkYear && !(IntMin() <= year <= IntMax()) then Fail(FILE_BROKEN) else
    var (wday, s) :- TakeNum(s, 1);
    var (yday, s) :- TakeNum(s, 2);
    var (isdst, s) :- TakeNum(s, 1);
    Got(Time(sec, min, hour, mday, mon, year, wday, yday, Numbers.Signed(isdst, 1)), s)
  }

  lemma TimeBack(t: Time, rest: seq<Byte>, checkYear: bool)
    requires StorableTime(t)
    ensures ParseTime(EncodeTime(t, rest), checkYear) == Got(t.(isdst := Sign(t.isdst)), rest)
  {
    var s9 := BigEndian(Unsigned(Sign(t.isdst), 1), 1) + rest;
    var s8 := BigEndian(t.yday, 2) + s9;
    var s7 := BigEndian(t.wday, 1) + s8;
    var s6 := BigEndian(Unsigned(t.year, 8), 8) + s7;
    var s5 := BigEndian(t.mon, 1) + s6;
    var s4 := BigEndian(t.mday, 1) + s5;
    var s3 := BigEndian(t.hour, 1) + s4;
    var s2 := BigEndian(t.min, 1) + s3;
    NumBack(t.sec, 1, s2);
    NumBack(t.min, 1, s3);
    NumBack(t.hour, 1, s4);
    NumBack(t.mday, 1, s5);
    NumBack(t.mon, 1, s6);
    SignedRoundTrip(t.year, 8);
    NumBack(Unsigned(t.year, 8), 8, s7);
    NumBack(t.wday, 1, s8);
    NumBack(t.yday, 2, s9);
    SignedRoundTrip(Sign(t.isdst), 1);
    NumBack(Unsigned(Sign(t.isdst), 1), 1, rest);
  }

  // ---------------------------------------------------------------------
  // Checksums

  const CHECKSUM_MAX_NUM: nat := 3
  const CHECKSUM_MAX_LEN: nat := 64

  function Unused(): Checksum { Checksum(0, []) }

  /** The used slots, in slot order. */
  function UsedSlots(slots: seq<Checksum>): (r: seq<Checksum>)
    ensures |r| <= |slots|
  {
    if slots == [] then [] else (if slots[0].kind != 0 then [slots[0]] else []) + UsedSlots(slots[1..])
  }

  function EncodeChecksum(c: Checksum, rest: seq<Byte>): seq<Byte> {
    BigEndian(c.kind, 2) + (BigEndian(|c.bytes|, 2) + (c.bytes + rest))
  }

  function EncodeList(used: seq<Checksum>, rest: seq<Byte>): seq<Byte> {
    if used == [] then rest else EncodeChecksum(used[0], EncodeList(used[1..], rest))
  }

  function EncodeChecksums(slots: seq<Checksum>, rest: seq<Byte>): seq<Byte> {
    BigEndian(|UsedSlots(slots)|, 2) + EncodeList(UsedSlots(slots), rest)
  }

  /** Three slots, each unused or holding the checksum of its own kind. */
  predicate StorableChecksums(slots: seq<Checksum>) {
    |slots| == CHECKSUM_MAX_NUM
    && forall i :: 0 <= i < |slots| ==> (slots[i].kind == i + 1 && |slots[i].bytes| <= CHECKSUM_MAX_LEN) || slots[i] == Unused()
  }

  /** Type and length of one checksum: kind, length, and the bytes that follow. */
  function ParseChecksumHead(s: seq<Byte>): Parsed<(nat, nat)> {
    var (kind, s) :- TakeNum(s, 2);
    if !(1 <= kind <= 3) then Fail(FILE_BROKEN) else
    var (len, s) :- TakeNum(s, 2);
    if len > CHECKSUM_MAX_LEN then Fail(FILE_BROKEN) else
    Got((kind, len), s)
  }

  /** The checksums of a whole file: each goes to the slot of its kind. */
  function ParseFileChecksums(s: seq<Byte>, n: nat, slots: seq<Checksum>): Parsed<seq<Checksum>>
    requires |slots| == 3
    decreases n
  {
    if n == 0 then Got(slots, s) else
    var (head, s) :- ParseChecksumHead(s);
    var (bytes, s) :- TakeStr(s, head.1);
    assert 1 <= head.0 <= 3;
    ParseFileChecksums(s, n - 1, slots[head.0 - 1 := Checksum(head.0, bytes)])
  }

  lemma ChecksumBack(c: Checksum, rest: seq<Byte>)
    requires 1 <= c.kind <= 3 && |c.bytes| <= CHECKSUM_MAX_LEN
    ensures ParseChecksumHead(EncodeChecksum(c, rest)) == Got((c.kind, |c.bytes|), c.bytes + rest)
    ensures TakeStr(c.bytes + rest, |c.bytes|) == Got(c.bytes, rest)
  {
    NumBack(c.kind, 2, BigEndian(|c.bytes|, 2) + (c.bytes + rest));
    NumBack(|c.bytes|, 2, c.bytes + rest);
    StrBack(c.bytes, rest);
  }

  /** The slots before `i` as they were, the others unused. */
  function UpTo(slots: seq<Checksum>, i: nat): (r: seq<Checksum>)
    ensures |r| == |slots|
  {
    seq(|slots|, k requires 0 <= k < |slots| => if k < i then slots[k] else Unused())
  }

  /** The slots after putting a list of checksums in their places. */
  function PlaceAll(used: seq<Checksum>, t: seq<Checksum>): (r: seq<Checksum>)
    requires |t| == 3 && forall k :: 0 <= k < |used| ==> 1 <= used[k].kind <= 3
    ensures |r| == 3
  {
    if used == [] then t else PlaceAll(used[1..], t[used[0].kind - 1 := used[0]])
  }

  lemma {:induction false} FileListBack(used: seq<Checksum>, t: seq<Checksum>, rest: seq<Byte>)
    requires |t| == 3 && forall k :: 0 <= k < |used| ==> 1 <= used[k].kind <= 3 && |used[k].bytes| <= CHECKSUM_MAX_LEN
    ensures ParseFileChecksums(EncodeList(used, rest), |used|, t) == Got(PlaceAll(used, t), rest)
  {
    if used != [] {
      ChecksumBack(used[0], EncodeList(used[1..], rest));
      FileListBack(used[1..], t[used[0].kind - 1 := used[0]], rest);
    }
  }

  lemma {:induction false} UsedFrom(slots: seq<Checksum>, i: nat)
    requires StorableChecksums(slots) && i <= 3
    ensures |UsedSlots(slots[i..])| <= 3 - i
    ensures forall k :: 0 <= k < |UsedSlots(slots[i..])| ==> 1 <= UsedSlots(slots[i..])[k].kind <= 3 && |UsedSlots(slots[i..])[k].bytes| <= CHECKSUM_MAX_LEN
    ensures i < 3 ==> UsedSlots(slots[i..]) == (if slots[i].kind != 0 then [slots[i]] else []) + UsedSlots(slots[i + 1..])
    decreases 3 - i
  {
    if i < 3 {
      UsedFrom(slots, i + 1);
      assert slots[i..][1..] == slots[i + 1..];
    }
  }

  lemma {:induction false} PlacedUpTo(slots: seq<Checksum>, i: nat)
    requires StorableChecksums(slots) && i <= 3
    ensures forall k :: 0 <= k < |UsedSlots(slots[i..])| ==> 1 <= UsedSlots(slots[i..])[k].kind <= 3
    ensures PlaceAll(UsedSlots(slots[i..]), UpTo(slots, i)) == slots
    decreases 3 - i
  {
    UsedFrom(slots, i);
    if i == 3 {
      assert UpTo(slots, 3) == slots;
    } else {
      PlacedUpTo(slots, i + 1);
      PlaceStep(slots, i, UsedSlots(slots[i + 1..]));
    }
  }

  lemma PlaceStep(slots: seq<Checksum>, i: nat, more: seq<Checksum>)
    requires StorableChecksums(slots) && i < 3 && forall k :: 0 <= k < |more| ==> 1 <= more[k].kind <= 3
    ensures var used := (if slots[i].kind != 0 then [slots[i]] else []) + more;
            (forall k :: 0 <= k < |used| ==> 1 <= used[k].kind <= 3) && PlaceAll(used, UpTo(slots, i)) == PlaceAll(more, UpTo(slots, i + 1))
  {
    if slots[i].kind == 0 {
      assert UpTo(slots, i) == UpTo(slots, i + 1) && [] + more == more;
    } else {
      assert UpTo(slots, i)[i := slots[i]] == UpTo(slots, i + 1);
      assert ([slots[i]] + more)[1..] == more && ([slots[i]] + more)[0] == slots[i];
    }
  }

  // The checksums of a section: type and length go to the slot of the kind, the bytes to the slot number `j`.

  function Zeros(n: nat): seq<Byte> { seq(n, _ => 0) }

  /** A checksum buffer holding `b`. */
  function Padded(b: seq<Byte>): (r: seq<Byte>)
    requires |b| <= CHECKSUM_MAX_LEN
    ensures |r| == CHECKSUM_MAX_LEN
  {
    b + Zeros(CHECKSUM_MAX_LEN - |b|)
  }

  datatype Slots = Slots(kinds: seq<(nat, nat)>, bufs: seq<seq<Byte>>)

  predicate SlotsOk(t: Slots) {
    |t.kinds| == |t.bufs| == 3 && (forall i :: 0 <= i < 3 ==> |t.bufs[i]| == CHECKSUM_MAX_LEN && t.kinds[i].1 <= CHECKSUM_MAX_LEN)
  }

  function Blank(): (t: Slots)
    ensures SlotsOk(t)
  {
    Slots([(0, 0), (0, 0), (0, 0)], [Zeros(64), Zeros(64), Zeros(64)])
  }

  function ParseSectChecksums(s: seq<Byte>, n: nat, j: nat, t: Slots): (r: Parsed<Slots>)
    requires SlotsOk(t) && j + n <= 3
    ensures r.Got? ==> SlotsOk(r.value)
    decreases n
  {
    if n == 0 then Got(t, s) else
    var (head, s) :- ParseChecksumHead(s);
    var (bytes, s) :- TakeStr(s, head.1);
    ParseSectChecksums(s, n - 1, j + 1, StoreAt(t, head, j, bytes))
  }

  function StoreAt(t: Slots, head: (nat, nat), j: nat, bytes: seq<Byte>): (r: Slots)
    requires SlotsOk(t) && j < 3 && 1 <= head.0 <= 3 && head.1 == |bytes| <= CHECKSUM_MAX_LEN
    ensures SlotsOk(r)
  {
    Slots(t.kinds[head.0 - 1 := head], t.bufs[j := bytes + t.bufs[j][|bytes|..]])
  }

  /** What the section then has: each used slot with the bytes of its own buffer. */
  function SlotChecksums(t: Slots): (r: seq<Checksum>)
    requires SlotsOk(t)
    ensures |r| == 3
  {
    seq(3, i requires 0 <= i < 3 => if t.kinds[i].0 == 0 then Unused() else Checksum(t.kinds[i].0, t.bufs[i][..t.kinds[i].1]))
  }

  /** The state after the slots before `i` have been read. */
  function ReadUpTo(slots: seq<Checksum>, i: nat): (t: Slots)
    requires StorableChecksums(slots) && i <= 3
    ensures SlotsOk(t)
  {
    var used := UsedSlots(slots[..i]);
    UsedAreStorable(slots, i);
    Slots(seq(3, k requires 0 <= k < 3 => if k < i then (slots[k].kind, |slots[k].bytes|) else (0, 0)),
          seq(3, k requires 0 <= k < 3 => if k < |used| then Padded(used[k].bytes) else Zeros(CHECKSUM_MAX_LEN)))
  }

  lemma {:induction false} UsedAreStorable(slots: seq<Checksum>, i: nat)
    requires StorableChecksums(slots) && i <= 3
    ensures |UsedSlots(slots[..i])| <= i
    ensures forall k :: 0 <= k < |UsedSlots(slots[..i])| ==> 1 <= UsedSlots(slots[..i])[k].kind <= 3 && |UsedSlots(slots[..i])[k].bytes| <= CHECKSUM_MAX_LEN
  {
    if i > 0 {
      var before, c := UsedSlots(slots[..i - 1]), slots[i - 1];
      UsedAreStorable(slots, i - 1);
      UsedStep(slots, i - 1);
      assert UsedSlots(slots[..i]) == before + if c.kind != 0 then [c] else [];
      assert c.kind != 0 ==> c.kind == i;
    }
  }

  lemma {:induction false} UsedStep(slots: seq<Checksum>, i: nat)
    requires i < |slots|
    ensures UsedSlots(slots[..i + 1]) == UsedSlots(slots[..i]) + (if slots[i].kind != 0 then [slots[i]] else [])
  {
    UsedConcat(slots[..i], [slots[i]]);
    assert slots[..i + 1] == slots[..i] + [slots[i]];
    assert UsedSlots([slots[i]]) == if slots[i].kind != 0 then [slots[i]] else [];
  }

  lemma {:induction false} UsedConcat(a: seq<Checksum>, b: seq<Checksum>)
    ensures UsedSlots(a + b) == UsedSlots(a) + UsedSlots(b)
  {
    hide UsedSlots;
    if a == [] {
      NoneUsed(a);
      assert a + b == b && a[..0] == a;
    } else {
      UsedConcat(a[1..], b);
      UsedFirst(a);
      UsedFirst(a + b);
      assert (a + b)[1..] == a[1..] + b && (a + b)[0] == a[0];
      Regroup(if a[0].kind != 0 then [a[0]] else [], UsedSlots(a[1..]), UsedSlots(b));
    }
  }

  lemma Regroup(a: seq<Checksum>, b: seq<Checksum>, c: seq<Checksum>)
    ensures a + (b + c) == (a + b) + c
  {
  }

  lemma UsedFirst(slots: seq<Checksum>)
    requires slots != []
    ensures UsedSlots(slots) == (if slots[0].kind != 0 then [slots[0]] else []) + UsedSlots(slots[1..])
  {
  }

  lemma StoreStep(slots: seq<Checksum>, i: nat)
    requires StorableChecksums(slots) && i < 3 && slots[i].kind != 0
    ensures |UsedSlots(slots[..i])| < 3
    ensures StoreAt(ReadUpTo(slots, i), (slots[i].kind, |slots[i].bytes|), |UsedSlots(slots[..i])|, slots[i].bytes) == ReadUpTo(slots, i + 1)
  {
    hide UsedSlots;
    UsedAreStorable(slots, i);
    UsedStep(slots, i);
    var c, j := slots[i], |UsedSlots(slots[..i])|;
    assert c.bytes + Zeros(CHECKSUM_MAX_LEN)[|c.bytes|..] == Padded(c.bytes);
    var before, after := ReadUpTo(slots, i), ReadUpTo(slots, i + 1);
    assert before.bufs[j] == Zeros(CHECKSUM_MAX_LEN);
    assert before.kinds[c.kind - 1 := (c.kind, |c.bytes|)] == after.kinds;
    assert before.bufs[j := Padded(c.bytes)] == after.bufs;
  }

  /** The state after storing a list of checksums from buffer `j` on. */
  function StoreAll(used: seq<Checksum>, j: nat, t: Slots): (r: Slots)
    requires SlotsOk(t) && j + |used| <= 3
    requires forall k :: 0 <= k < |used| ==> 1 <= used[k].kind <= 3 && |used[k].bytes| <= CHECKSUM_MAX_LEN
    ensures SlotsOk(r)
  {
    if used == [] then t else StoreAll(used[1..], j + 1, StoreAt(t, (used[0].kind, |used[0].bytes|), j, used[0].bytes))
  }

  lemma {:induction false} SectListBack(used: seq<Checksum>, j: nat, t: Slots, rest: seq<Byte>)
    requires SlotsOk(t) && j + |used| <= 3
    requires forall k :: 0 <= k < |used| ==> 1 <= used[k].kind <= 3 && |used[k].bytes| <= CHECKSUM_MAX_LEN
    ensures ParseSectChecksums(EncodeList(used, rest), |used|, j, t) == Got(StoreAll(used, j, t), rest)
  {
    if used != [] {
      ChecksumBack(used[0], EncodeList(used[1..], rest));
      SectListBack(used[1..], j + 1, StoreAt(t, (used[0].kind, |used[0].bytes|), j, used[0].bytes), rest);
    }
  }

  lemma {:induction false} StoredUpTo(slots: seq<Checksum>, i: nat)
    requires StorableChecksums(slots) && i <= 3
    ensures |UsedSlots(slots[..i])| + |UsedSlots(slots[i..])| <= 3
    ensures forall k :: 0 <= k < |UsedSlots(slots[i..])| ==> 1 <= UsedSlots(slots[i..])[k].kind <= 3 && |UsedSlots(slots[i..])[k].bytes| <= CHECKSUM_MAX_LEN
    ensures StoreAll(UsedSlots(slots[i..]), |UsedSlots(slots[..i])|, ReadUpTo(slots, i)) == ReadUpTo(slots, 3)
    decreases 3 - i
  {
    hide ReadUpTo, StoreAt, UsedSlots;
    UsedAreStorable(slots, i);
    if i < 3 {
      StoredUpTo(slots, i + 1);
      SectSlot(slots, i);
      var more := UsedSlots(slots[i + 1..]);
      if slots[i].kind == 0 {
        assert [] + more == more;
      } else {
        assert ([slots[i]] + more)[1..] == more && ([slots[i]] + more)[0] == slots[i];
      }
    } else {
      NoneUsed([]);
      assert slots[3..] == [][..0];
    }
  }

  lemma NoneUsed(slots: seq<Checksum>)
    ensures UsedSlots(slots[..0]) == []
  {
  }

  lemma SectSlot(slots: seq<Checksum>, i: nat)
    requires StorableChecksums(slots) && i < 3
    ensures UsedSlots(slots[i..]) == (if slots[i].kind != 0 then [slots[i]] else []) + UsedSlots(slots[i + 1..])
    ensures |UsedSlots(slots[..i + 1])| == |UsedSlots(slots[..i])| + (if slots[i].kind != 0 then 1 else 0)
    ensures slots[i].kind == 0 ==> ReadUpTo(slots, i) == ReadUpTo(slots, i + 1)
    ensures slots[i].kind != 0 ==> |UsedSlots(slots[..i])| < 3
    ensures slots[i].kind != 0 ==>
      StoreAt(ReadUpTo(slots, i), (slots[i].kind, |slots[i].bytes|), |UsedSlots(slots[..i])|, slots[i].bytes) == ReadUpTo(slots, i + 1)
  {
    UsedStep(slots, i);
    assert slots[i..][1..] == slots[i + 1..];
    if slots[i].kind != 0 {
      StoreStep(slots, i);
    }
  }

  lemma SectChecksumsBack(slots: seq<Checksum>, rest: seq<Byte>)
    requires StorableChecksums(slots)
    ensures |UsedSlots(slots)| <= 3
    ensures ParseSectChecksums(EncodeList(UsedSlots(slots), rest), |UsedSlots(slots)|, 0, Blank()) == Got(ReadUpTo(slots, 3), rest)
  {
    StoredUpTo(slots, 0);
    assert slots[0..] == slots && slots[..0] == [];
    assert ReadUpTo(slots, 0).kinds == Blank().kinds && ReadUpTo(slots, 0).bufs == Blank().bufs;
    SectListBack(UsedSlots(slots), 0, Blank(), rest);
  }

  /** What a section's checksums become by saving and loading. */
  function Reloaded(slots: seq<Checksum>): (r: seq<Checksum>)
    ensures |r| == |slots|
  {
    if StorableChecksums(slots) then SlotChecksums(ReadUpTo(slots, 3)) else slots
  }

  /** The used slots are the first ones. */
  predicate Compact(slots: seq<Checksum>) {
    forall i, j :: 0 <= i < j < |slots| && slots[i].kind == 0 ==> slots[j].kind == 0
  }

  lemma {:induction false} AllUsed(slots: seq<Checksum>, i: nat)
    requires i <= |slots| && forall k :: 0 <= k < i ==> slots[k].kind != 0
    ensures UsedSlots(slots[..i]) == slots[..i]
  {
    if i > 0 {
      AllUsed(slots, i - 1);
      UsedStep(slots, i - 1);
      assert slots[..i] == slots[..i - 1] + [slots[i - 1]];
    }
  }

  lemma CompactUsed(slots: seq<Checksum>, k: nat)
    requires Compact(slots) && k < |slots| && slots[k].kind != 0
    ensures k < |UsedSlots(slots)| && UsedSlots(slots)[k] == slots[k]
  {
    hide UsedSlots;
    AllUsed(slots, k + 1);
    UsedConcat(slots[..k + 1], slots[k + 1..]);
    assert slots == slots[..k + 1] + slots[k + 1..];
  }

  /** Compact section checksums survive. */
  lemma CompactSurvives(slots: seq<Checksum>)
    requires StorableChecksums(slots) && Compact(slots)
    ensures Reloaded(slots) == slots
  {
    UsedAreStorable(slots, 3);
    assert slots[..3] == slots;
    forall k | 0 <= k < 3 ensures Reloaded(slots)[k] == slots[k] {
      if slots[k].kind != 0 {
        CompactUsed(slots, k);
        assert Padded(slots[k].bytes)[..|slots[k].bytes|] == slots[k].bytes;
      }
    }
  }

  /** A checksum that is not all zero bytes. */
  predicate Nonzero(c: Checksum) {
    exists i :: 0 <= i < |c.bytes| && c.bytes[i] != 0
  }

  /** The loader indexes the section's buffers by `j`: for checksums that are not all zero, saving and
      loading gives a section's checksums back exactly when the used slots are the first ones. */
  lemma SurvivesIffCompact(slots: seq<Checksum>)
    requires StorableChecksums(slots) && forall k :: 0 <= k < 3 && slots[k].kind != 0 ==> Nonzero(slots[k])
    ensures Reloaded(slots) == slots <==> Compact(slots)
  {
    if Compact(slots) {
      CompactSurvives(slots);
    } else {
      var k := if slots[2].kind != 0 then 2 else 1;
      GapLoses(slots, k);
    }
  }

  /** The last used slot, with a gap before it, reads zeros. */
  lemma GapLoses(slots: seq<Checksum>, k: nat)
    requires StorableChecksums(slots) && k < 3 && slots[k].kind != 0 && Nonzero(slots[k])
    requires forall j :: k < j < 3 ==> slots[j].kind == 0
    requires exists j :: 0 <= j < k && slots[j].kind == 0
    ensures Reloaded(slots)[k] != slots[k]
  {
    UsedAreStorable(slots, 3);
    UsedStep(slots, 0);
    UsedStep(slots, 1);
    UsedStep(slots, 2);
    assert slots[..0] == [];
    assert |UsedSlots(slots[..3])| <= k;
    var i :| 0 <= i < |slots[k].bytes| && slots[k].bytes[i] != 0;
    assert Reloaded(slots)[k].bytes == Zeros(CHECKSUM_MAX_LEN)[..|slots[k].bytes|];
    assert Reloaded(slots)[k].bytes[i] == 0;
  }

  // ---------------------------------------------------------------------
  // Extracts

  function EncodeExtract(e: Extract, rest: seq<Byte>): seq<Byte> {
    BigEndian(e.position, 8) + (BigEndian(|e.bytes|, 2) + (e.bytes + rest))
  }

  function EncodeExtractList(es: seq<Extract>, rest: seq<Byte>): seq<Byte> {
    if es == [] then rest else EncodeExtract(es[0], EncodeExtractList(es[1..], rest))
  }

  function EncodeExtracts(es: seq<Extract>, rest: seq<Byte>): seq<Byte> {
    BigEndian(|es|, 4) + EncodeExtractList(es, rest)
  }

  /** The loader's test of an extract's end: strict for a whole file, not for a section. */
  predicate EndOk(position: nat, len: nat, fileSize: nat, wholeFile: bool) {
    if wholeFile then position + len < fileSize else position + len <= fileSize
  }

  predicate LoadableExtract(e: Extract, fileSize: nat, wholeFile: bool) {
    e.position < fileSize && |e.bytes| <= EXTRACT_SIZE_MAX && EndOk(e.position, |e.bytes|, fileSize, wholeFile)
  }

  predicate LoadableExtracts(es: seq<Extract>, fileSize: nat, wholeFile: bool) {
    |es| <= EXTRACT_MAX_NUM && forall i :: 0 <= i < |es| ==> LoadableExtract(es[i], fileSize, wholeFile)
  }

  function ParseExtract(s: seq<Byte>, fileSize: nat, wholeFile: bool): Parsed<Extract> {
    var (position, s) :- TakeNum(s, 8);
    if position >= fileSize then Fail(FILE_BROKEN) else
    var (len, s) :- TakeNum(s, 2);
    if len > EXTRACT_SIZE_MAX then Fail(FILE_BROKEN) else
    if !EndOk(position, len, fileSize, wholeFile) then Fail(FILE_BROKEN) else
    var (bytes, s) :- TakeStr(s, len);
    Got(Extract(position, bytes), s)
  }

  function ParseExtractList(s: seq<Byte>, n: nat, fileSize: nat, wholeFile: bool): Parsed<seq<Extract>>
    decreases n
  {
    if n == 0 then Got([], s) else
    var (e, s) :- ParseExtract(s, fileSize, wholeFile);
    var (es, s) :- ParseExtractList(s, n - 1, fileSize, wholeFile);
    Got([e] + es, s)
  }

  function ParseExtracts(s: seq<Byte>, fileSize: nat, wholeFile: bool): Parsed<seq<Extract>> {
    var (n, s) :- TakeNum(s, 4);
    if n > EXTRACT_MAX_NUM then Fail(FILE_BROKEN) else ParseExtractList(s, n, fileSize, wholeFile)
  }

  lemma ExtractBack(e: Extract, rest: seq<Byte>, fileSize: nat, wholeFile: bool)
    requires LoadableExtract(e, fileSize, wholeFile) && fileSize <= Pow256(8)
    ensures ParseExtract(EncodeExtract(e, rest), fileSize, wholeFile) == Got(e, rest)
  {
    NumBack(e.position, 8, BigEndian(|e.bytes|, 2) + (e.bytes + rest));
    NumBack(|e.bytes|, 2, e.bytes + rest);
    StrBack(e.bytes, rest);
  }

  lemma {:induction false} ExtractListBack(es: seq<Extract>, rest: seq<Byte>, fileSize: nat, wholeFile: bool)
    requires fileSize <= Pow256(8) && forall i :: 0 <= i < |es| ==> LoadableExtract(es[i], fileSize, wholeFile)
    ensures ParseExtractList(EncodeExtractList(es, rest), |es|, fileSize, wholeFile) == Got(es, rest)
  {
    if es != [] {
      ExtractBack(es[0], EncodeExtractList(es[1..], rest), fileSize, wholeFile);
      ExtractListBack(es[1..], rest, fileSize, wholeFile);
      assert es == [es[0]] + es[1..];
    }
  }

  lemma ExtractsBack(es: seq<Extract>, rest: seq<Byte>, fileSize: nat, wholeFile: bool)
    requires fileSize <= Pow256(8) && LoadableExtracts(es, fileSize, wholeFile)
    ensures ParseExtracts(EncodeExtracts(es, rest), fileSize, wholeFile) == Got(es, rest)
  {
    NumBack(|es|, 4, EncodeExtractList(es, rest));
    ExtractListBack(es, rest, fileSize, wholeFile);
  }

  // ---------------------------------------------------------------------
  // Sections

  function EncodeSection(x: Section, rest: seq<Byte>): seq<Byte> {
    BigEndian(x.start, 8) + (BigEndian(x.end, 8) + EncodeChecksums(x.checksums, EncodeExtracts(x.extracts, rest)))
  }

  function EncodeSectionList(xs: seq<Section>, rest: seq<Byte>): seq<Byte> {
    if xs == [] then rest else EncodeSection(xs[0], EncodeSectionList(xs[1..], rest))
  }

  predicate LoadableSection(x: Section, fileSize: nat) {
    x.start < Pow256(8) && x.end < Pow256(8) && StorableChecksums(x.checksums) && LoadableExtracts(x.extracts, fileSize, false)
  }

  function ParseSection(s: seq<Byte>, fileSize: nat): Parsed<Section> {
    var (start, s) :- TakeNum(s, 8);
    var (end, s) :- TakeNum(s, 8);
    var (n, s) :- TakeNum(s, 2);
    if n > CHECKSUM_MAX_NUM then Fail(FILE_BROKEN) else
    var (t, s) :- ParseSectChecksums(s, n, 0, Blank());
    assert SlotsOk(t);
    var (extracts, s) :- ParseExtracts(s, fileSize, false);
    Got(Section(start, end, SlotChecksums(t), extracts), s)
  }

  function ParseSectionList(s: seq<Byte>, n: nat, fileSize: nat): Parsed<seq<Section>>
    decreases n
  {
    if n == 0 then Got([], s) else
    var (x, s) :- ParseSection(s, fileSize);
    var (xs, s) :- ParseSectionList(s, n - 1, fileSize);
    Got([x] + xs, s)
  }

  /** What a section becomes by saving and loading. */
  function ReloadedSection(x: Section): Section {
    x.(checksums := Reloaded(x.checksums))
  }

  function ReloadedSections(xs: seq<Section>): (r: seq<Section>)
    ensures |r| == |xs|
  {
    if xs == [] then [] else [ReloadedSection(xs[0])] + ReloadedSections(xs[1..])
  }

  lemma SectionBack(x: Section, rest: seq<Byte>, fileSize: nat)
    requires LoadableSection(x, fileSize) && fileSize <= Pow256(8)
    ensures ParseSection(EncodeSection(x, rest), fileSize) == Got(ReloadedSection(x), rest)
  {
    hide BigEndian, TakeNum;
    var s3 := EncodeExtracts(x.extracts, rest);
    var s2 := EncodeChecksums(x.checksums, s3);
    var s1 := BigEndian(x.end, 8) + s2;
    NumBack(x.start, 8, s1);
    NumBack(x.end, 8, s2);
    SectChecksumsBack(x.checksums, s3);
    NumBack(|UsedSlots(x.checksums)|, 2, EncodeList(UsedSlots(x.checksums), s3));
    ExtractsBack(x.extracts, rest, fileSize, false);
  }

  lemma {:induction false} SectionListBack(xs: seq<Section>, rest: seq<Byte>, fileSize: nat)
    requires fileSize <= Pow256(8) && forall i :: 0 <= i < |xs| ==> LoadableSection(xs[i], fileSize)
    ensures ParseSectionList(EncodeSectionList(xs, rest), |xs|, fileSize)
         == Got(ReloadedSections(xs), rest)
  {
    hide ParseSection, EncodeSection, ReloadedSection, LoadableSection;
    if xs != [] {
      SectionBack(xs[0], EncodeSectionList(xs[1..], rest), fileSize);
      SectionListBack(xs[1..], rest, fileSize);
    }
  }

  // ---------------------------------------------------------------------
  // File data

  const FILE_SIZE_MAX: nat := 109951162777600

  function EncodeSections(d: FileData, rest: seq<Byte>): seq<Byte> {
    BigEndian(|d.sections|, 8) + (BigEndian(d.norm, 8) + (BigEndian(d.last, 8) + EncodeSectionList(d.sections, rest)))
  }

  function EncodeFileData(d: FileData, rest: seq<Byte>): seq<Byte> {
    BigEndian(d.size, 8) + EncodeChecksums(d.checksums, EncodeExtracts(d.extracts, EncodeSections(d, rest)))
  }

  /** The loader's tests of the section sizes. */
  predicate SectionSizesOk(n: nat, norm: nat, last: nat, fileSize: nat) {
    (n == 0 ==> norm == 0 && last == 0) && norm <= fileSize && (n == 1 ==> last == norm) && last <= norm
  }

  predicate LoadableFileData(d: FileData) {
    d.size <= FILE_SIZE_MAX && StorableChecksums(d.checksums) && LoadableExtracts(d.extracts, d.size, true)
    && |d.sections| < Pow256(8) && SectionSizesOk(|d.sections|, d.norm, d.last, d.size)
    && forall i :: 0 <= i < |d.sections| ==> LoadableSection(d.sections[i], d.size)
  }

  function ParseFileData(s: seq<Byte>): Parsed<FileData> {
    var (size, s) :- TakeNum(s, 8);
    if size > FILE_SIZE_MAX then Fail(FILE_BROKEN) else
    var (n, s) :- TakeNum(s, 2);
    if n > CHECKSUM_MAX_NUM then Fail(FILE_BROKEN) else
    var (checksums, s) :- ParseFileChecksums(s, n, [Unused(), Unused(), Unused()]);
    var (extracts, s) :- ParseExtracts(s, size, true);
    ParseSections(s, FileData(size, checksums, extracts, 0, 0, []))
  }

  /** Number and sizes of the sections, and the sections; `d` has the rest of the file data. */
  function ParseSections(s: seq<Byte>, d: FileData): Parsed<FileData> {
    var (m, s) :- TakeNum(s, 8);
    var (norm, s) :- TakeNum(s, 8);
    if (m == 0 && norm != 0) || norm > d.size then Fail(FILE_BROKEN) else
    var (last, s) :- TakeNum(s, 8);
    if (m == 0 && last != 0) || (m == 1 && last != norm) || last > norm then Fail(FILE_BROKEN) else
    var (sections, s) :- ParseSectionList(s, m, d.size);
    Got(d.(norm := norm, last := last, sections := sections), s)
  }

  /** What file data becomes by saving and loading. */
  function ReloadedFileData(d: FileData): FileData {
    d.(sections := ReloadedSections(d.sections))
  }

  lemma EightBytes()
    ensures Pow256(8) == 18446744073709551616 && Pow256(1) == 256
  {
  }

  lemma SectionsBack(d: FileData, e: FileData, rest: seq<Byte>)
    requires d.size <= FILE_SIZE_MAX && |d.sections| < Pow256(8) && SectionSizesOk(|d.sections|, d.norm, d.last, d.size)
    requires forall i :: 0 <= i < |d.sections| ==> LoadableSection(d.sections[i], d.size)
    requires e == d.(norm := 0, last := 0, sections := [])
    ensures ParseSections(EncodeSections(d, rest), e) == Got(ReloadedFileData(d), rest)
  {
    hide BigEndian, TakeNum, Pow256;
    EightBytes();
    var s6 := EncodeSectionList(d.sections, rest);
    var s5 := BigEndian(d.last, 8) + s6;
    var s4 := BigEndian(d.norm, 8) + s5;
    NumBack(|d.sections|, 8, s4);
    NumBack(d.norm, 8, s5);
    NumBack(d.last, 8, s6);
    SectionListBack(d.sections, rest, d.size);
  }

  /** The checksums of a file come back in their slots. */
  lemma ChecksumsBack(slots: seq<Checksum>, rest: seq<Byte>)
    requires StorableChecksums(slots)
    ensures |UsedSlots(slots)| <= 3
    ensures TakeNum(EncodeChecksums(slots, rest), 2) == Got(|UsedSlots(slots)|, EncodeList(UsedSlots(slots), rest))
    ensures ParseFileChecksums(EncodeList(UsedSlots(slots), rest), |UsedSlots(slots)|, [Unused(), Unused(), Unused()]) == Got(slots, rest)
  {
    assert slots[0..] == slots;
    UsedFrom(slots, 0);
    PlacedUpTo(slots, 0);
    NumBack(|UsedSlots(slots)|, 2, EncodeList(UsedSlots(slots), rest));
    FileListBack(UsedSlots(slots), UpTo(slots, 0), rest);
    assert UpTo(slots, 0) == [Unused(), Unused(), Unused()];
  }

  lemma FileDataBack(d: FileData, rest: seq<Byte>)
    requires LoadableFileData(d)
    ensures ParseFileData(EncodeFileData(d, rest)) == Got(ReloadedFileData(d), rest)
  {
    hide BigEndian, TakeNum, Pow256;
    EightBytes();
    var s3 := EncodeSections(d, rest);
    var s2 := EncodeExtracts(d.extracts, s3);
    NumBack(d.size, 8, EncodeChecksums(d.checksums, s2));
    ChecksumsBack(d.checksums, s2);
    ExtractsBack(d.extracts, s3, d.size, true);
    SectionsBack(d, FileData(d.size, d.checksums, d.extracts, 0, 0, []), rest);
  }

  /** File data that is storable otherwise is loaded exactly when the section sizes pass the loader's tests. */
  lemma LoadsIffSizesOk(d: FileData, rest: seq<Byte>)
    requires d.size <= FILE_SIZE_MAX && StorableChecksums(d.checksums) && LoadableExtracts(d.extracts, d.size, true)
    requires |d.sections| < Pow256(8) && d.norm < Pow256(8) && d.last < Pow256(8)
    requires forall i :: 0 <= i < |d.sections| ==> LoadableSection(d.sections[i], d.size)
    ensures ParseFileData(EncodeFileData(d, rest))
         == if SectionSizesOk(|d.sections|, d.norm, d.last, d.size) then Got(ReloadedFileData(d), rest) else Fail(FILE_BROKEN)
  {
    hide BigEndian, TakeNum, Pow256;
    if SectionSizesOk(|d.sections|, d.norm, d.last, d.size) {
      FileDataBack(d, rest);
    } else {
      EightBytes();
      var s3 := EncodeSections(d, rest);
      var s2 := EncodeExtracts(d.extracts, s3);
      NumBack(d.size, 8, EncodeChecksums(d.checksums, s2));
      ChecksumsBack(d.checksums, s2);
      ExtractsBack(d.extracts, s3, d.size, true);
      SizesRefused(d, FileData(d.size, d.checksums, d.extracts, 0, 0, []), rest);
    }
  }

  lemma SizesRefused(d: FileData, e: FileData, rest: seq<Byte>)
    requires |d.sections| < Pow256(8) && d.norm < Pow256(8) && d.last < Pow256(8) && e.size == d.size
    requires !SectionSizesOk(|d.sections|, d.norm, d.last, d.size)
    ensures ParseSections(EncodeSections(d, rest), e) == Fail(FILE_BROKEN)
  {
    hide BigEndian, TakeNum, Pow256;
    var s6 := EncodeSectionList(d.sections, rest);
    var s5 := BigEndian(d.last, 8) + s6;
    var s4 := BigEndian(d.norm, 8) + s5;
    NumBack(|d.sections|, 8, s4);
    NumBack(d.norm, 8, s5);
    NumBack(d.last, 8, s6);
  }

  /** File data whose section checksums fill their first slots comes back unchanged. */
  lemma CompactFileData(d: FileData)
    requires LoadableFileData(d) && forall i :: 0 <= i < |d.sections| ==> Compact(d.sections[i].checksums)
    ensures ReloadedFileData(d) == d
  {
    CompactSections(d.sections, d.size);
  }

  lemma {:induction false} CompactSections(xs: seq<Section>, fileSize: nat)
    requires forall i :: 0 <= i < |xs| ==> LoadableSection(xs[i], fileSize) && Compact(xs[i].checksums)
    ensures ReloadedSections(xs) == xs
  {
    if xs != [] {
      CompactSurvives(xs[0].checksums);
      CompactSections(xs[1..], fileSize);
      assert xs == [xs[0]] + xs[1..];
    }
  }

  // ---------------------------------------------------------------------
  // The record

  const ENTRY_OTHER: nat := 0x09
  const ENTRY_FILE: nat := 0x11
  const ENTRY_GROUP: nat := 0x22
  const CREATED_BY_SYS: nat := 2
  const CREATED_BY_USR: nat := 4
  const TAG_STR_MAX: nat := 1641
  const USER_MSG_MAX: nat := 200
  const EID_LEN: nat := 8

  /** The field presence bitmap. */
  function Presence(e: Record): nat {
    (if e.tagStr != [] then 1 else 0) + (if e.userMsg != [] then 2 else 0) + (if e.tod.Some? then 4 else 0)
    + (if e.tom.Some? then 8 else 0) + (if e.tusr.Some? then 16 else 0) + (if e.data.Some? then 32 else 0)
  }

  predicate Bit(map_: nat, mask: nat)
    requires 0 < mask
  {
    (map_ / mask) % 2 == 1
  }

  /** A string with its length in front, if there is one. */
  function EncodeText(b: seq<Byte>, rest: seq<Byte>): seq<Byte> {
    if b == [] then rest else BigEndian(|b|, 8) + (b + rest)
  }

  function EncodeOptTime(t: Option<Time>, rest: seq<Byte>): seq<Byte>
    requires t.Some? ==> StorableTime(t.value)
  {
    if t.Some? then EncodeTime(t.value, rest) else rest
  }

  predicate StorableTimes(e: Record) {
    (e.tod.Some? ==> StorableTime(e.tod.value)) && (e.tom.Some? ==> StorableTime(e.tom.value))
    && (e.tusr.Some? ==> StorableTime(e.tusr.value))
  }

  function EncodeKind(e: Record, rest: seq<Byte>): seq<Byte> {
    BigEndian(e.kind, 1) + (BigEndian(e.childNum, 8) + (BigEndian(e.createdBy, 1) + rest))
  }

  /** File name and bitmap. */
  function EncodeName(e: Record, rest: seq<Byte>): seq<Byte> {
    BigEndian(|e.fileName|, 8) + (e.fileName + (BigEndian(Presence(e), 8) + rest))
  }

  function EncodeTexts(e: Record, rest: seq<Byte>): seq<Byte> {
    EncodeText(e.tagStr, EncodeText(e.userMsg, rest))
  }

  function EncodeTimes(e: Record, rest: seq<Byte>): seq<Byte>
    requires StorableTimes(e)
  {
    EncodeOptTime(e.tod, EncodeOptTime(e.tom, EncodeOptTime(e.tusr, rest)))
  }

  function EncodeData(e: Record, rest: seq<Byte>): seq<Byte> {
    if e.data.Some? then EncodeFileData(e.data.value, rest) else rest
  }

  /** Everything after the ids. */
  function EncodeBody(e: Record, rest: seq<Byte>): seq<Byte>
    requires StorableTimes(e)
  {
    EncodeKind(e, EncodeName(e, EncodeTexts(e, EncodeTimes(e, EncodeData(e, rest)))))
  }

  function EncodeRecord(e: Record, rest: seq<Byte>): seq<Byte>
    requires StorableTimes(e)
  {
    e.branchId + (e.id + (e.parentId + EncodeBody(e, rest)))
  }

  /** Where the pieces of a concatenation are. */
  lemma Piece(s: seq<Byte>, at: nat, a: seq<Byte>, rest: seq<Byte>)
    requires at <= |s| && s[at..] == a + rest
    ensures at + |a| <= |s| && s[at..at + |a|] == a && s[at + |a|..] == rest
  {
    assert s[at..at + |a|] == s[at..][..|a|] && s[at + |a|..] == s[at..][|a|..];
  }

  /** The layout of an entry up to the bitmap that tells what follows. */
  lemma RecordLayout(e: Record, rest: seq<Byte>)
    requires StorableTimes(e) && |e.branchId| == |e.id| == |e.parentId| == 8
    ensures var s, n := EncodeRecord(e, rest), |e.fileName|;
      |s| >= 50 + n && s[..8] == e.branchId && s[8..16] == e.id && s[16..24] == e.parentId
      && s[24] == e.kind % 256 && s[25..33] == BigEndian(e.childNum, 8) && s[33] == e.createdBy % 256
      && s[34..42] == BigEndian(n, 8) && s[42..42 + n] == e.fileName && s[42 + n..50 + n] == BigEndian(Presence(e), 8)
  {
    hide EncodeTexts, EncodeTimes, EncodeData, Presence;
    var s := EncodeRecord(e, rest);
    var s7 := EncodeTexts(e, EncodeTimes(e, EncodeData(e, rest)));
    var s6 := BigEndian(Presence(e), 8) + s7;
    var s5 := BigEndian(|e.fileName|, 8) + (e.fileName + s6);
    var s4 := BigEndian(e.createdBy, 1) + s5;
    var s3 := BigEndian(e.kind, 1) + (BigEndian(e.childNum, 8) + s4);
    assert s[0..] == e.branchId + (e.id + (e.parentId + s3));
    Piece(s, 0, e.branchId, e.id + (e.parentId + s3));
    Piece(s, 8, e.id, e.parentId + s3);
    Piece(s, 16, e.parentId, s3);
    Piece(s, 24, BigEndian(e.kind, 1), BigEndian(e.childNum, 8) + s4);
    Piece(s, 25, BigEndian(e.childNum, 8), s4);
    Piece(s, 33, BigEndian(e.createdBy, 1), s5);
    Piece(s, 34, BigEndian(|e.fileName|, 8), e.fileName + s6);
    Piece(s, 42, e.fileName, s6);
    Piece(s, 42 + |e.fileName|, BigEndian(Presence(e), 8), s7);
    assert s[24] == s[24..25][0] == BigEndian(e.kind, 1)[0] && s[33] == s[33..34][0] == BigEndian(e.createdBy, 1)[0];
  }

  predicate AllZero(b: seq<Byte>) {
    forall i :: 0 <= i < |b| ==> b[i] == 0
  }

  /** The ids in front: branch, entry, parent. */
  function ParseIds(s: seq<Byte>): Parsed<(seq<Byte>, seq<Byte>, seq<Byte>)> {
    var (branchId, s) :- TakeStr(s, EID_LEN);
    var (id, s) :- TakeStr(s, EID_LEN);
    if AllZero(id) then Fail(FILE_BROKEN) else
    var (parentId, s) :- TakeStr(s, EID_LEN);
    Got((branchId, id, parentId), s)
  }

  /** An entry with its ids only. */
  function NewRecord(ids: (seq<Byte>, seq<Byte>, seq<Byte>)): Record {
    Record(ids.0, ids.1, ids.2, 0, 0, 0, [], [], [], None, None, None, None)
  }

  function ParseKind(s: seq<Byte>, e: Record): Parsed<Record> {
    var (kind, s) :- TakeNum(s, 1);
    if kind !in {ENTRY_OTHER, ENTRY_FILE, ENTRY_GROUP} then Fail(FILE_BROKEN) else
    var (childNum, s) :- TakeNum(s, 8);
    var (createdBy, s) :- TakeNum(s, 1);
    if createdBy !in {CREATED_BY_SYS, CREATED_BY_USR} then Fail(FILE_BROKEN) else
    Got(e.(kind := kind, childNum := childNum, createdBy := createdBy), s)
  }

  /** File name and bitmap; the bitmap is returned beside the entry. */
  function ParseName(s: seq<Byte>, e: Record): Parsed<(Record, nat)> {
    var (n, s) :- TakeNum(s, 8);
    if n > FILE_NAME_MAX then Fail(FILE_BROKEN) else
    var (fileName, s) :- TakeStr(s, n);
    var (bitmap, s) :- TakeNum(s, 8);
    Got((e.(fileName := fileName), bitmap), s)
  }

  function ParseText(s: seq<Byte>, present: bool, max: nat): Parsed<seq<Byte>> {
    if !present then Got([], s) else
    var (n, s) :- TakeNum(s, 8);
    if n > max then Fail(FILE_BROKEN) else TakeStr(s, n)
  }

  /** Tag strings begin and end with a bar. */
  predicate TagFormat(b: seq<Byte>) {
    b == [] || (b[0] == b[|b| - 1] == 124)
  }

  function ParseOptTime(s: seq<Byte>, present: bool, checkYear: bool): Parsed<Option<Time>> {
    if !present then Got(None, s) else
    var (t, s) :- ParseTime(s, checkYear);
    Got(Some(t), s)
  }

  function ParseTexts(s: seq<Byte>, e: Record, bitmap: nat): Parsed<Record> {
    var (tag, s) :- ParseText(s, Bit(bitmap, 1), TAG_STR_MAX);
    if !TagFormat(tag) then Fail(FILE_BROKEN) else
    var (msg, s) :- ParseText(s, Bit(bitmap, 2), USER_MSG_MAX);
    Got(e.(tagStr := tag, userMsg := msg), s)
  }

  function ParseTimes(s: seq<Byte>, e: Record, bitmap: nat): Parsed<Record> {
    var (tod, s) :- ParseOptTime(s, Bit(bitmap, 4), true);
    var (tom, s) :- ParseOptTime(s, Bit(bitmap, 8), true);
    var (tusr, s) :- ParseOptTime(s, Bit(bitmap, 16), false);
    Got(e.(tod := tod, tom := tom, tusr := tusr), s)
  }

  function ParseData(s: seq<Byte>, e: Record, bitmap: nat): Parsed<Record> {
    if !Bit(bitmap, 32) then Got(e, s) else
    var (d, s) :- ParseFileData(s);
    Got(e.(data := Some(d)), s)
  }

  function ParseBody(s: seq<Byte>, e: Record): Parsed<Record> {
    var (e, s) :- ParseKind(s, e);
    var (r, s) :- ParseName(s, e);
    var (e, s) :- ParseTexts(s, r.0, r.1);
    var (e, s) :- ParseTimes(s, e, r.1);
    ParseData(s, e, r.1)
  }

  function ParseRecord(s: seq<Byte>): Parsed<Record> {
    var (ids, s) :- ParseIds(s);
    ParseBody(s, NewRecord(ids))
  }

  // ---------------------------------------------------------------------
  // The round trip

  /** What the loader accepts, and what fits its places in the file and the buffer. */
  predicate LoadableRecord(e: Record) {
    |e.branchId| == |e.id| == |e.parentId| == EID_LEN && !AllZero(e.id)
    && e.kind in {ENTRY_OTHER, ENTRY_FILE, ENTRY_GROUP} && e.createdBy in {CREATED_BY_SYS, CREATED_BY_USR} && e.childNum < Pow256(8)
    && |e.fileName| <= FILE_NAME_MAX && |e.tagStr| <= BUFFER_SIZE && TagFormat(e.tagStr) && |e.userMsg| <= USER_MSG_MAX
    && StorableTimes(e) && (e.data.Some? ==> LoadableFileData(e.data.value))
  }

  function ReloadedTime(t: Option<Time>): Option<Time> {
    if t.Some? then Some(t.value.(isdst := Sign(t.value.isdst))) else None
  }

  /** What a record becomes by saving and loading: daylight saving flags are reduced to their sign, and
      section checksums may suffer. */
  function ReloadedRecord(e: Record): Record {
    e.(tod := ReloadedTime(e.tod), tom := ReloadedTime(e.tom), tusr := ReloadedTime(e.tusr),
       data := if e.data.Some? then Some(ReloadedFileData(e.data.value)) else None)
  }

  lemma PresenceBits(e: Record)
    ensures Presence(e) < 64
    ensures Bit(Presence(e), 1) == (e.tagStr != []) && Bit(Presence(e), 2) == (e.userMsg != [])
    ensures Bit(Presence(e), 4) == e.tod.Some? && Bit(Presence(e), 8) == e.tom.Some?
    ensures Bit(Presence(e), 16) == e.tusr.Some? && Bit(Presence(e), 32) == e.data.Some?
  {
  }

  lemma TextBack(b: seq<Byte>, rest: seq<Byte>, max: nat)
    requires |b| <= BUFFER_SIZE && |b| <= max
    ensures ParseText(EncodeText(b, rest), b != [], max) == Got(b, rest)
  {
    EightBytes();
    if b != [] {
      NumBack(|b|, 8, b + rest);
      StrBack(b, rest);
    }
  }

  lemma OptTimeBack(t: Option<Time>, rest: seq<Byte>, checkYear: bool)
    requires t.Some? ==> StorableTime(t.value)
    ensures ParseOptTime(EncodeOptTime(t, rest), t.Some?, checkYear) == Got(ReloadedTime(t), rest)
  {
    if t.Some? {
      TimeBack(t.value, rest, checkYear);
    }
  }

  lemma IdsBack(e: Record, rest: seq<Byte>)
    requires |e.branchId| == |e.id| == |e.parentId| == EID_LEN && !AllZero(e.id)
    ensures ParseIds(e.branchId + (e.id + (e.parentId + rest))) == Got((e.branchId, e.id, e.parentId), rest)
  {
    StrBack(e.branchId, e.id + (e.parentId + rest));
    StrBack(e.id, e.parentId + rest);
    StrBack(e.parentId, rest);
  }

  lemma KindBack(e: Record, f: Record, rest: seq<Byte>)
    requires e.kind in {ENTRY_OTHER, ENTRY_FILE, ENTRY_GROUP} && e.createdBy in {CREATED_BY_SYS, CREATED_BY_USR} && e.childNum < Pow256(8)
    ensures ParseKind(EncodeKind(e, rest), f) == Got(f.(kind := e.kind, childNum := e.childNum, createdBy := e.createdBy), rest)
  {
    hide BigEndian, TakeNum, Pow256;
    EightBytes();
    assert e.kind < 256 && e.createdBy < 256;
    var s2 := BigEndian(e.createdBy, 1) + rest;
    NumBack(e.kind, 1, BigEndian(e.childNum, 8) + s2);
    NumBack(e.childNum, 8, s2);
    NumBack(e.createdBy, 1, rest);
  }

  lemma NameBack(e: Record, f: Record, rest: seq<Byte>)
    requires |e.fileName| <= FILE_NAME_MAX
    ensures ParseName(EncodeName(e, rest), f) == Got((f.(fileName := e.fileName), Presence(e)), rest)
  {
    hide BigEndian, TakeNum, Pow256;
    EightBytes();
    PresenceBits(e);
    var s2 := BigEndian(Presence(e), 8) + rest;
    NumBack(|e.fileName|, 8, e.fileName + s2);
    StrBack(e.fileName, s2);
    NumBack(Presence(e), 8, rest);
  }

  lemma TextsBack(e: Record, f: Record, rest: seq<Byte>)
    requires |e.tagStr| <= BUFFER_SIZE && TagFormat(e.tagStr) && |e.userMsg| <= USER_MSG_MAX
    ensures ParseTexts(EncodeTexts(e, rest), f, Presence(e)) == Got(f.(tagStr := e.tagStr, userMsg := e.userMsg), rest)
  {
    PresenceBits(e);
    TextBack(e.tagStr, EncodeText(e.userMsg, rest), TAG_STR_MAX);
    TextBack(e.userMsg, rest, USER_MSG_MAX);
  }

  lemma TimesBack(e: Record, f: Record, rest: seq<Byte>)
    requires StorableTimes(e)
    ensures ParseTimes(EncodeTimes(e, rest), f, Presence(e))
         == Got(f.(tod := ReloadedTime(e.tod), tom := ReloadedTime(e.tom), tusr := ReloadedTime(e.tusr)), rest)
  {
    PresenceBits(e);
    var s2 := EncodeOptTime(e.tusr, rest);
    OptTimeBack(e.tod, EncodeOptTime(e.tom, s2), true);
    OptTimeBack(e.tom, s2, true);
    OptTimeBack(e.tusr, rest, false);
  }

  lemma DataBack(e: Record, f: Record, rest: seq<Byte>)
    requires f.data.None? && (e.data.Some? ==> LoadableFileData(e.data.value))
    ensures ParseData(EncodeData(e, rest), f, Presence(e)) == Got(f.(data := ReloadedRecord(e).data), rest)
  {
    PresenceBits(e);
    if e.data.Some? {
      FileDataBack(e.data.value, rest);
    }
  }

  lemma BodyBack(e: Record, rest: seq<Byte>)
    requires LoadableRecord(e)
    ensures ParseBody(EncodeBody(e, rest), NewRecord((e.branchId, e.id, e.parentId))) == Got(ReloadedRecord(e), rest)
  {
    var f := NewRecord((e.branchId, e.id, e.parentId));
    var s4 := EncodeData(e, rest);
    var s3 := EncodeTimes(e, s4);
    var s2 := EncodeTexts(e, s3);
    KindBack(e, f, EncodeName(e, s2));
    var f1 := f.(kind := e.kind, childNum := e.childNum, createdBy := e.createdBy);
    NameBack(e, f1, s2);
    var f2 := f1.(fileName := e.fileName);
    TextsBack(e, f2, s3);
    var f3 := f2.(tagStr := e.tagStr, userMsg := e.userMsg);
    TimesBack(e, f3, s4);
    DataBack(e, f3.(tod := ReloadedTime(e.tod), tom := ReloadedTime(e.tom), tusr := ReloadedTime(e.tusr)), rest);
  }

  /** Decoding what save_file wrote for an entry gives back the entry, up to `ReloadedRecord`. */
  lemma RecordBack(e: Record, rest: seq<Byte>)
    requires LoadableRecord(e)
    ensures ParseRecord(EncodeRecord(e, rest)) == Got(ReloadedRecord(e), rest)
  {
    IdsBack(e, EncodeBody(e, rest));
    BodyBack(e, rest);
  }

  predicate SignOnly(t: Option<Time>) {
    t.Some? ==> -1 <= t.value.isdst <= 1
  }

  lemma SignUnchanged(t: Option<Time>)
    requires SignOnly(t)
    ensures ReloadedTime(t) == t
  {
  }

  /** When nothing is lost at all. */
  lemma UnchangedRecord(e: Record)
    requires SignOnly(e.tod) && SignOnly(e.tom) && SignOnly(e.tusr)
    requires e.data.Some? ==> LoadableFileData(e.data.value)
    requires e.data.Some? ==> forall i :: 0 <= i < |e.data.value.sections| ==> Compact(e.data.value.sections[i].checksums)
    ensures ReloadedRecord(e) == e
  {
    SignUnchanged(e.tod);
    SignUnchanged(e.tom);
    SignUnchanged(e.tusr);
    if e.data.Some? {
      CompactFileData(e.data.value);
    }
  }
}
