/** `load_file`: reading the records back through the read buffer. */
module LoadFile {
  import opened Util
  import opened Codes
  import opened BufferedFile
  import opened Numbers
  import opened Records

  ghost predicate Ready(r: Reader)
    reads r, r.file
  {
    r.Valid() && r.buf.Length == BUFFER_SIZE
  }

  /** The code of a failed read: whether the file ended in the last buffer or before it decides which of the
      two codes for it is returned. */
  predicate SameCode(ret: int, code: int) {
    ret == code || (code == FILE_END && ret == FILE_END_TOO_SOON)
  }

  /** What was read is what the format says about the bytes that were left. */
  ghost predicate Outcome<T>(r: Reader, ret: int, v: T, p: Parsed<T>)
    reads r, r.file, r.buf
  {
    match p
    case Got(x, rest) => ret == OK && Ready(r) && v == x && r.Rest() == rest
    case Fail(code) => ret != OK && SameCode(ret, code)
  }

  method GetStr(r: Reader, n: nat) returns (ret: int, b: seq<Byte>)
    requires Ready(r)
    modifies r, r.file`pos, r.buf, r.backup
    ensures Outcome(r, ret, b, TakeStr(old(r.Rest()), n))
  {
    ret, b := r.CopyBufToPtr(n, true);
  }

  method GetNum(r: Reader, k: nat) returns (ret: int, n: nat)
    requires Ready(r) && k <= 8
    modifies r, r.file`pos, r.buf, r.backup
    ensures Outcome(r, ret, n, TakeNum(old(r.Rest()), k))
  {
    ghost var s := r.Rest();
    var b;
    ret, b := r.CopyBufToPtr(k, false);
    if ret == OK {
      HostReads(s[..k], r.little);
      n := HostNumber(b, r.little);
    } else {
      n := 0;
    }
  }

  method LoadTime(r: Reader, checkYear: bool) returns (ret: int, t: Time)
    requires Ready(r)
    modifies r, r.file`pos, r.buf, r.backup
    ensures Outcome(r, ret, t, ParseTime(old(r.Rest()), checkYear))
  {
    t := Time(0, 0, 0, 0, 0, 0, 0, 0, 0);
    var sec, min, hour, mday, mon, year, wday, yday, isdst;
    ret, sec := GetNum(r, 1);
    if ret != OK { return; }
    ret, min := GetNum(r, 1);
    if ret != OK { return; }
    ret, hour := GetNum(r, 1);
    if ret != OK { return; }
    ret, mday := GetNum(r, 1);
    if ret != OK { return; }
    ret, mon := GetNum(r, 1);
    if ret != OK { return; }
    ret, year := GetNum(r, 8);
    if ret != OK { return; }
    if checkYear && !(IntMin() <= Signed(year, 8) <= IntMax()) {
      return FILE_BROKEN, t;
    }
    ret, wday := GetNum(r, 1);
    if ret != OK { return; }
    ret, yday := GetNum(r, 2);
    if ret != OK { return; }
    ret, isdst := GetNum(r, 1);
    if ret != OK { return; }
    t := Time(sec, min, hour, mday, mon, Signed(year, 8), wday, yday, Signed(isdst, 1));
  }

  // Type and length of a checksum
  method LoadChecksumHead(r: Reader) returns (ret: int, head: (nat, nat))
    requires Ready(r)
    modifies r, r.file`pos, r.buf, r.backup
    ensures Outcome(r, ret, head, ParseChecksumHead(old(r.Rest())))
  {
    head := (0, 0);
    var kind, len;
    ret, kind := GetNum(r, 2);
    if ret != OK { return; }
    if !(1 <= kind <= 3) {
      return FILE_BROKEN, head;
    }
    ret, len := GetNum(r, 2);
    if ret != OK { return; }
    if len > CHECKSUM_MAX_LEN {
      return FILE_BROKEN, head;
    }
    head := (kind, len);
  }

  method LoadFileChecksums(r: Reader, n: nat) returns (ret: int, slots: seq<Checksum>)
    requires Ready(r)
    modifies r, r.file`pos, r.buf, r.backup
    ensures Outcome(r, ret, slots, ParseFileChecksums(old(r.Rest()), n, [Unused(), Unused(), Unused()]))
  {
    slots := [Unused(), Unused(), Unused()];
    ret := OK;
    ghost var p := ParseFileChecksums(r.Rest(), n, slots);
    for i := 0 to n
      invariant Ready(r) && ret == OK && |slots| == 3 && ParseFileChecksums(r.Rest(), n - i, slots) == p
    {
      ret, slots := LoadFileChecksum(r, slots, n - i);
      if ret != OK { return; }
    }
  }

  method LoadFileChecksum(r: Reader, slots: seq<Checksum>, ghost n: nat) returns (ret: int, after: seq<Checksum>)
    requires Ready(r) && |slots| == 3 && 0 < n
    modifies r, r.file`pos, r.buf, r.backup
    ensures ret == OK ==> Ready(r) && |after| == 3 && ParseFileChecksums(r.Rest(), n - 1, after) == ParseFileChecksums(old(r.Rest()), n, slots)
    ensures ret != OK ==> Outcome(r, ret, after, ParseFileChecksums(old(r.Rest()), n, slots))
  {
    after := slots;
    var head, bytes;
    ret, head := LoadChecksumHead(r);
    if ret != OK { return; }
    ret, bytes := GetStr(r, head.1);
    if ret != OK { return; }
    after := slots[head.0 - 1 := Checksum(head.0, bytes)];
  }

  method LoadSectChecksums(r: Reader, n: nat) returns (ret: int, t: Slots)
    requires Ready(r) && n <= 3
    modifies r, r.file`pos, r.buf, r.backup
    ensures Outcome(r, ret, t, ParseSectChecksums(old(r.Rest()), n, 0, Blank()))
  {
    t := Blank();
    ret := OK;
    ghost var p := ParseSectChecksums(r.Rest(), n, 0, t);
    for j := 0 to n
      invariant Ready(r) && ret == OK && SlotsOk(t) && ParseSectChecksums(r.Rest(), n - j, j, t) == p
    {
      ret, t := LoadSectChecksum(r, j, t, n - j);
      if ret != OK { return; }
    }
  }

  method LoadSectChecksum(r: Reader, j: nat, t: Slots, ghost n: nat) returns (ret: int, after: Slots)
    requires Ready(r) && 0 < n && j + n <= 3 && SlotsOk(t)
    modifies r, r.file`pos, r.buf, r.backup
    ensures ret == OK ==> Ready(r) && SlotsOk(after)
    ensures ret == OK ==> ParseSectChecksums(r.Rest(), n - 1, j + 1, after) == ParseSectChecksums(old(r.Rest()), n, j, t)
    ensures ret != OK ==> Outcome(r, ret, after, ParseSectChecksums(old(r.Rest()), n, j, t))
  {
    after := t;
    var head, bytes;
    ret, head := LoadChecksumHead(r);
    if ret != OK { return; }
    ret, bytes := GetStr(r, head.1);
    if ret != OK { return; }
    after := StoreAt(t, head, j, bytes);
  }

  /** A list of which `done` has been read and `p` says the rest. */
  function Prepend<T>(done: seq<T>, p: Parsed<seq<T>>): Parsed<seq<T>> {
    if p.Got? then Got(done + p.value, p.rest) else p
  }

  lemma PrependNothing<T>(p: Parsed<seq<T>>)
    ensures Prepend([], p) == p
  {
    if p.Got? {
      assert [] + p.value == p.value;
    }
  }

  lemma PrependMore<T>(done: seq<T>, x: T, p: Parsed<seq<T>>)
    ensures Prepend(done, Prepend([x], p)) == Prepend(done + [x], p)
  {
    if p.Got? {
      assert done + ([x] + p.value) == (done + [x]) + p.value;
    }
  }

  method LoadExtract(r: Reader, fileSize: nat, wholeFile: bool) returns (ret: int, e: Extract)
    requires Ready(r)
    modifies r, r.file`pos, r.buf, r.backup
    ensures Outcome(r, ret, e, ParseExtract(old(r.Rest()), fileSize, wholeFile))
  {
    e := Extract(0, []);
    var position, len, bytes;
    ret, position := GetNum(r, 8);
    if ret != OK { return; }
    if position >= fileSize {
      return FILE_BROKEN, e;
    }
    ret, len := GetNum(r, 2);
    if ret != OK { return; }
    if len > EXTRACT_SIZE_MAX {
      return FILE_BROKEN, e;
    }
    if (wholeFile && position + len >= fileSize) || (!wholeFile && position + len > fileSize) {
      return FILE_BROKEN, e;
    }
    ret, bytes := GetStr(r, len);
    if ret != OK { return; }
    e := Extract(position, bytes);
  }

  method LoadExtracts(r: Reader, fileSize: nat, wholeFile: bool) returns (ret: int, es: seq<Extract>)
    requires Ready(r)
    modifies r, r.file`pos, r.buf, r.backup
    ensures Outcome(r, ret, es, ParseExtracts(old(r.Rest()), fileSize, wholeFile))
  {
    es := [];
    var n;
    ret, n := GetNum(r, 4);
    if ret != OK { return; }
    if n > EXTRACT_MAX_NUM {
      return FILE_BROKEN, es;
    }
    ret, es := LoadExtractList(r, n, fileSize, wholeFile);
  }

  method LoadExtractList(r: Reader, n: nat, fileSize: nat, wholeFile: bool) returns (ret: int, es: seq<Extract>)
    requires Ready(r)
    modifies r, r.file`pos, r.buf, r.backup
    ensures Outcome(r, ret, es, ParseExtractList(old(r.Rest()), n, fileSize, wholeFile))
  {
    hide ParseExtract;
    es, ret := [], OK;
    ghost var p := ParseExtractList(r.Rest(), n, fileSize, wholeFile);
    PrependNothing(p);
    for i := 0 to n
      invariant Ready(r) && ret == OK && Prepend(es, ParseExtractList(r.Rest(), n - i, fileSize, wholeFile)) == p
    {
      ret, es := LoadNextExtract(r, fileSize, wholeFile, es, n - i);
      if ret != OK { return; }
    }
    assert es + [] == es;
  }

  method LoadNextExtract(r: Reader, fileSize: nat, wholeFile: bool, es: seq<Extract>, ghost n: nat) returns (ret: int, more: seq<Extract>)
    requires Ready(r) && 0 < n
    modifies r, r.file`pos, r.buf, r.backup
    ensures ret == OK ==> Ready(r)
    ensures ret == OK ==>
      Prepend(more, ParseExtractList(r.Rest(), n - 1, fileSize, wholeFile)) == Prepend(es, ParseExtractList(old(r.Rest()), n, fileSize, wholeFile))
    ensures ret != OK ==> Outcome(r, ret, more, Prepend(es, ParseExtractList(old(r.Rest()), n, fileSize, wholeFile)))
  {
    more := es;
    var e;
    ret, e := LoadExtract(r, fileSize, wholeFile);
    if ret != OK { return; }
    PrependMore(es, e, ParseExtractList(r.Rest(), n - 1, fileSize, wholeFile));
    more := es + [e];
  }

  method LoadSection(r: Reader, fileSize: nat) returns (ret: int, x: Section)
    requires Ready(r)
    modifies r, r.file`pos, r.buf, r.backup
    ensures Outcome(r, ret, x, ParseSection(old(r.Rest()), fileSize))
  {
    x := Section(0, 0, [], []);
    var start, end, n, t, es;
    ret, start := GetNum(r, 8);
    if ret != OK { return; }
    ret, end := GetNum(r, 8);
    if ret != OK { return; }
    ret, n := GetNum(r, 2);
    if ret != OK { return; }
    if n > CHECKSUM_MAX_NUM {
      return FILE_BROKEN, x;
    }
    ret, t := LoadSectChecksums(r, n);
    if ret != OK { return; }
    ret, es := LoadExtracts(r, fileSize, false);
    if ret != OK { return; }
    x := Section(start, end, SlotChecksums(t), es);
  }

  method LoadSectionList(r: Reader, n: nat, fileSize: nat) returns (ret: int, xs: seq<Section>)
    requires Ready(r)
    modifies r, r.file`pos, r.buf, r.backup
    ensures Outcome(r, ret, xs, ParseSectionList(old(r.Rest()), n, fileSize))
  {
    xs, ret := [], OK;
    ghost var p := ParseSectionList(r.Rest(), n, fileSize);
    PrependNothing(p);
    for i := 0 to n
      invariant Ready(r) && ret == OK && Prepend(xs, ParseSectionList(r.Rest(), n - i, fileSize)) == p
    {
      var x;
      ret, x := LoadSection(r, fileSize);
      if ret != OK { return; }
      PrependMore(xs, x, ParseSectionList(r.Rest(), n - i - 1, fileSize));
      xs := xs + [x];
    }
    assert xs + [] == xs;
  }

  method LoadSections(r: Reader, e: FileData) returns (ret: int, d: FileData)
    requires Ready(r)
    modifies r, r.file`pos, r.buf, r.backup
    ensures Outcome(r, ret, d, ParseSections(old(r.Rest()), e))
  {
    d := e;
    var m, norm, last, sections;
    ret, m := GetNum(r, 8);
    if ret != OK { return; }
    ret, norm := GetNum(r, 8);
    if ret != OK { return; }
    if m == 0 && norm != 0 {
      return FILE_BROKEN, d;
    }
    if norm > d.size {
      return FILE_BROKEN, d;
    }
    ret, last := GetNum(r, 8);
    if ret != OK { return; }
    if m == 0 && last != 0 {
      return FILE_BROKEN, d;
    }
    if m == 1 && last != norm {
      return FILE_BROKEN, d;
    }
    if last > norm {
      return FILE_BROKEN, d;
    }
    ret, sections := LoadSectionList(r, m, d.size);
    if ret != OK { return; }
    d := d.(norm := norm, last := last, sections := sections);
  }

  method LoadFileData(r: Reader) returns (ret: int, d: FileData)
    requires Ready(r)
    modifies r, r.file`pos, r.buf, r.backup
    ensures Outcome(r, ret, d, ParseFileData(old(r.Rest())))
  {
    d := FileData(0, [], [], 0, 0, []);
    var size, n, checksums, extracts;
    ret, size := GetNum(r, 8);
    if ret != OK { return; }
    if size > FILE_SIZE_MAX {
      return FILE_BROKEN, d;
    }
    ret, n := GetNum(r, 2);
    if ret != OK { return; }
    if n > CHECKSUM_MAX_NUM {
      return FILE_BROKEN, d;
    }
    ret, checksums := LoadFileChecksums(r, n);
    if ret != OK { return; }
    ret, extracts := LoadExtracts(r, size, true);
    if ret != OK { return; }
    ret, d := LoadSections(r, FileData(size, checksums, extracts, 0, 0, []));
  }

  // ---------------------------------------------------------------------
  // One entry

  method LoadIds(r: Reader) returns (ret: int, ids: (seq<Byte>, seq<Byte>, seq<Byte>))
    requires Ready(r)
    modifies r, r.file`pos, r.buf, r.backup
    ensures Outcome(r, ret, ids, ParseIds(old(r.Rest())))
  {
    ids := ([], [], []);
    var branchId, id, parentId;
    ret, branchId := GetStr(r, EID_LEN);
    if ret != OK { return; }
    ret, id := GetStr(r, EID_LEN);
    if ret != OK { return; }
    var zero := IsZero(id);
    if zero {
      return FILE_BROKEN, ids;
    }
    ret, parentId := GetStr(r, EID_LEN);
    if ret != OK { return; }
    ids := (branchId, id, parentId);
  }

  // "check if all 0"
  method IsZero(id: seq<Byte>) returns (zero: bool)
    ensures zero == AllZero(id)
  {
    for i := 0 to |id|
      invariant forall k :: 0 <= k < i ==> id[k] == 0
    {
      if id[i] != 0 {
        return false;
      }
    }
    zero := true;
  }

  method LoadKind(r: Reader, e: Record) returns (ret: int, f: Record)
    requires Ready(r)
    modifies r, r.file`pos, r.buf, r.backup
    ensures Outcome(r, ret, f, ParseKind(old(r.Rest()), e))
  {
    f := e;
    var kind, childNum, createdBy;
    ret, kind := GetNum(r, 1);
    if ret != OK { return; }
    if kind != ENTRY_OTHER && kind != ENTRY_FILE && kind != ENTRY_GROUP {
      return FILE_BROKEN, f;
    }
    ret, childNum := GetNum(r, 8);
    if ret != OK { return; }
    ret, createdBy := GetNum(r, 1);
    if ret != OK { return; }
    if createdBy != CREATED_BY_SYS && createdBy != CREATED_BY_USR {
      return FILE_BROKEN, f;
    }
    f := e.(kind := kind, childNum := childNum, createdBy := createdBy);
  }

  method LoadName(r: Reader, e: Record) returns (ret: int, f: (Record, nat))
    requires Ready(r)
    modifies r, r.file`pos, r.buf, r.backup
    ensures Outcome(r, ret, f, ParseName(old(r.Rest()), e))
  {
    f := (e, 0);
    var n, fileName, bitmap;
    ret, n := GetNum(r, 8);
    if ret != OK { return; }
    if n > FILE_NAME_MAX {
      return FILE_BROKEN, f;
    }
    ret, fileName := GetStr(r, n);
    if ret != OK { return; }
    ret, bitmap := GetNum(r, 8);
    if ret != OK { return; }
    f := (e.(fileName := fileName), bitmap);
  }

  method LoadText(r: Reader, present: bool, max: nat) returns (ret: int, b: seq<Byte>)
    requires Ready(r)
    modifies r, r.file`pos, r.buf, r.backup
    ensures Outcome(r, ret, b, ParseText(old(r.Rest()), present, max))
  {
    ret, b := OK, [];
    if present {
      var n;
      ret, n := GetNum(r, 8);
      if ret != OK { return; }
      if n > max {
        return FILE_BROKEN, b;
      }
      ret, b := GetStr(r, n);
    }
  }

  method LoadTexts(r: Reader, e: Record, bitmap: nat) returns (ret: int, f: Record)
    requires Ready(r)
    modifies r, r.file`pos, r.buf, r.backup
    ensures Outcome(r, ret, f, ParseTexts(old(r.Rest()), e, bitmap))
  {
    f := e;
    var tag, msg;
    ret, tag := LoadText(r, Bit(bitmap, 1), TAG_STR_MAX);
    if ret != OK { return; }
    if |tag| > 0 && (tag[0] != 124 || tag[|tag| - 1] != 124) {
      return FILE_BROKEN, f;
    }
    ret, msg := LoadText(r, Bit(bitmap, 2), USER_MSG_MAX);
    if ret != OK { return; }
    f := e.(tagStr := tag, userMsg := msg);
  }

  method LoadOptTime(r: Reader, present: bool, checkYear: bool) returns (ret: int, t: Option<Time>)
    requires Ready(r)
    modifies r, r.file`pos, r.buf, r.backup
    ensures Outcome(r, ret, t, ParseOptTime(old(r.Rest()), present, checkYear))
  {
    ret, t := OK, None;
    if present {
      var u;
      ret, u := LoadTime(r, checkYear);
      if ret != OK { return; }
      t := Some(u);
    }
  }

  method LoadTimes(r: Reader, e: Record, bitmap: nat) returns (ret: int, f: Record)
    requires Ready(r)
    modifies r, r.file`pos, r.buf, r.backup
    ensures Outcome(r, ret, f, ParseTimes(old(r.Rest()), e, bitmap))
  {
    f := e;
    var tod, tom, tusr;
    ret, tod := LoadOptTime(r, Bit(bitmap, 4), true);
    if ret != OK { return; }
    ret, tom := LoadOptTime(r, Bit(bitmap, 8), true);
    if ret != OK { return; }
    ret, tusr := LoadOptTime(r, Bit(bitmap, 16), false);
    if ret != OK { return; }
    f := e.(tod := tod, tom := tom, tusr := tusr);
  }

  method LoadData(r: Reader, e: Record, bitmap: nat) returns (ret: int, f: Record)
    requires Ready(r)
    modifies r, r.file`pos, r.buf, r.backup
    ensures Outcome(r, ret, f, ParseData(old(r.Rest()), e, bitmap))
  {
    f := e;
    if !Bit(bitmap, 32) {
      return OK, f;
    }
    var d;
    ret, d := LoadFileData(r);
    if ret != OK { return; }
    f := e.(data := Some(d));
  }

  // Everything of an entry after its ids
  method LoadBody(r: Reader, e: Record) returns (ret: int, f: Record)
    requires Ready(r)
    modifies r, r.file`pos, r.buf, r.backup
    ensures Outcome(r, ret, f, ParseBody(old(r.Rest()), e))
  {
    var named: (Record, nat);
    ret, f := LoadKind(r, e);
    if ret != OK { return; }
    ret, named := LoadName(r, f);
    if ret != OK { return; }
    ret, f := LoadTexts(r, named.0, named.1);
    if ret != OK { return; }
    ret, f := LoadTimes(r, f, named.1);
    if ret != OK { return; }
    ret, f := LoadData(r, f, named.1);
  }
}
