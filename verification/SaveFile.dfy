/** `save_file`: the entries of a database, in threaded order, through the write buffer. A number always fits
    the buffer, so the return code of writing one is not tested again here. */
module SaveFile {
  import opened Lists
  import opened Util
  import opened Codes
  import opened BufferedFile
  import opened Numbers
  import opened Records
  import opened Entries
  import opened Threading

  /** Everything is written at the end of the file. */
  ghost predicate Appending(w: Writer)
    reads w, w.file, w.buf
  {
    w.Valid() && w.Position() == |w.Image()| && w.buf.Length == BUFFER_SIZE
  }

  // In the methods below `rest` is what will follow: the content written before, what is written here and
  // `rest` make up the content that the encoder describes.

  method PutStr(w: Writer, b: seq<Byte>, ghost rest: seq<Byte>) returns (ret: int)
    requires Appending(w)
    modifies w, w.file, w.buf
    ensures |b| > BUFFER_SIZE ==> ret == BUFFER_NO_SPACE
    ensures |b| <= BUFFER_SIZE ==> ret == OK && Appending(w) && w.Image() + rest == old(w.Image()) + (b + rest)
  {
    ghost var image := w.Image();
    ret := w.CopyPtrToBuf(b, true);
    Cat(image, b, rest);
  }

  method PutNum(w: Writer, n: nat, k: nat, ghost rest: seq<Byte>)
    requires Appending(w) && k <= 8
    modifies w, w.file, w.buf
    ensures Appending(w) && w.Image() + rest == old(w.Image()) + (BigEndian(n, k) + rest)
  {
    hide BigEndian, HostBytes, Converted;
    ghost var image := w.Image();
    FileBytes(n, k, w.little);
    var _ := w.CopyPtrToBuf(HostBytes(n, k, w.little), false);
    Cat(image, BigEndian(n, k), rest);
  }

  // The broken-down time, field by field
  method SaveTime(w: Writer, t: Time, ghost rest: seq<Byte>)
    requires Appending(w) && StorableTime(t)
    modifies w, w.file, w.buf
    ensures Appending(w) && w.Image() + rest == old(w.Image()) + EncodeTime(t, rest)
  {
    var isdst := if t.isdst < 0 then -1 else if t.isdst == 0 then 0 else 1;
    ghost var s9 := BigEndian(Unsigned(isdst, 1), 1) + rest;
    ghost var s8 := BigEndian(t.yday, 2) + s9;
    ghost var s7 := BigEndian(t.wday, 1) + s8;
    ghost var s6 := BigEndian(Unsigned(t.year, 8), 8) + s7;
    ghost var s5 := BigEndian(t.mon, 1) + s6;
    ghost var s4 := BigEndian(t.mday, 1) + s5;
    ghost var s3 := BigEndian(t.hour, 1) + s4;
    ghost var s2 := BigEndian(t.min, 1) + s3;
    PutNum(w, t.sec, 1, s2);
    PutNum(w, t.min, 1, s3);
    PutNum(w, t.hour, 1, s4);
    PutNum(w, t.mday, 1, s5);
    PutNum(w, t.mon, 1, s6);
    PutNum(w, Unsigned(t.year, 8), 8, s7);
    PutNum(w, t.wday, 1, s8);
    PutNum(w, t.yday, 2, s9);
    PutNum(w, Unsigned(isdst, 1), 1, rest);
  }

  // "calculate number of checksum used"
  method CountUsed(slots: seq<Checksum>) returns (n: nat)
    ensures n == |UsedSlots(slots)|
  {
    n := 0;
    for i := 0 to |slots|
      invariant n == |UsedSlots(slots[..i])|
    {
      UsedStep(slots, i);
      if slots[i].kind != 0 {
        n := n + 1;
      }
    }
    assert slots[..|slots|] == slots;
  }

  // The number of used slots, then each of them
  method SaveChecksums(w: Writer, slots: seq<Checksum>, ghost rest: seq<Byte>)
    requires Appending(w) && StorableChecksums(slots)
    modifies w, w.file, w.buf
    ensures Appending(w) && w.Image() + rest == old(w.Image()) + EncodeChecksums(slots, rest)
  {
    var n := CountUsed(slots);
    assert slots[0..] == slots;
    PutNum(w, n, 2, EncodeList(UsedSlots(slots), rest));
    ghost var image := w.Image();
    for i := 0 to |slots|
      invariant Appending(w) && w.Image() + EncodeList(UsedSlots(slots[i..]), rest) == image + EncodeList(UsedSlots(slots), rest)
    {
      UsedFrom(slots, i);
      assert [] + UsedSlots(slots[i + 1..]) == UsedSlots(slots[i + 1..]);
      if slots[i].kind == 0 {
        continue;
      }
      SaveChecksum(w, slots[i], UsedSlots(slots[i + 1..]), rest);
    }
    assert slots[3..] == [];
  }

  method SaveChecksum(w: Writer, c: Checksum, ghost more: seq<Checksum>, ghost rest: seq<Byte>)
    requires Appending(w) && |c.bytes| <= CHECKSUM_MAX_LEN
    modifies w, w.file, w.buf
    ensures Appending(w) && w.Image() + EncodeList(more, rest) == old(w.Image()) + EncodeList([c] + more, rest)
  {
    ghost var s := EncodeList(more, rest);
    assert ([c] + more)[1..] == more;
    PutNum(w, c.kind, 2, BigEndian(|c.bytes|, 2) + (c.bytes + s));
    PutNum(w, |c.bytes|, 2, c.bytes + s);
    var _ := PutStr(w, c.bytes, s);
  }

  method SaveExtracts(w: Writer, es: seq<Extract>, ghost rest: seq<Byte>)
    requires Appending(w) && SmallExtracts(es)
    modifies w, w.file, w.buf
    ensures Appending(w) && w.Image() + rest == old(w.Image()) + EncodeExtracts(es, rest)
  {
    PutNum(w, |es|, 4, EncodeExtractList(es, rest));
    ghost var image := w.Image();
    for i := 0 to |es|
      invariant Appending(w) && w.Image() + EncodeExtractList(es[i..], rest) == image + EncodeExtractList(es, rest)
    {
      assert es[i..][1..] == es[i + 1..];
      ghost var s := EncodeExtractList(es[i + 1..], rest);
      PutNum(w, es[i].position, 8, BigEndian(|es[i].bytes|, 2) + (es[i].bytes + s));
      PutNum(w, |es[i].bytes|, 2, es[i].bytes + s);
      var _ := PutStr(w, es[i].bytes, s);
    }
  }

  method SaveSection(w: Writer, x: Section, ghost rest: seq<Byte>)
    requires Appending(w) && StorableChecksums(x.checksums) && SmallExtracts(x.extracts)
    modifies w, w.file, w.buf
    ensures Appending(w) && w.Image() + rest == old(w.Image()) + EncodeSection(x, rest)
  {
    ghost var s3 := EncodeExtracts(x.extracts, rest);
    ghost var s2 := EncodeChecksums(x.checksums, s3);
    PutNum(w, x.start, 8, BigEndian(x.end, 8) + s2);
    PutNum(w, x.end, 8, s2);
    SaveChecksums(w, x.checksums, s3);
    SaveExtracts(w, x.extracts, rest);
  }

  /** What save_file relies on in file data: sizes that fit their buffers. */
  predicate SavableFileData(d: FileData) {
    StorableChecksums(d.checksums) && SmallExtracts(d.extracts)
    && forall i :: 0 <= i < |d.sections| ==> StorableChecksums(d.sections[i].checksums) && SmallExtracts(d.sections[i].extracts)
  }

  predicate SmallExtracts(es: seq<Extract>) {
    forall i :: 0 <= i < |es| ==> |es[i].bytes| <= EXTRACT_SIZE_MAX
  }

  method SaveFileData(w: Writer, d: FileData, ghost rest: seq<Byte>)
    requires Appending(w) && SavableFileData(d)
    modifies w, w.file, w.buf
    ensures Appending(w) && w.Image() + rest == old(w.Image()) + EncodeFileData(d, rest)
  {
    ghost var s3 := EncodeSections(d, rest);
    ghost var s2 := EncodeExtracts(d.extracts, s3);
    PutNum(w, d.size, 8, EncodeChecksums(d.checksums, s2));
    SaveChecksums(w, d.checksums, s2);
    SaveExtracts(w, d.extracts, s3);
    SaveSections(w, d, rest);
  }

  method SaveSections(w: Writer, d: FileData, ghost rest: seq<Byte>)
    requires Appending(w) && SavableFileData(d)
    modifies w, w.file, w.buf
    ensures Appending(w) && w.Image() + rest == old(w.Image()) + EncodeSections(d, rest)
  {
    ghost var s := EncodeSectionList(d.sections, rest);
    PutNum(w, |d.sections|, 8, BigEndian(d.norm, 8) + (BigEndian(d.last, 8) + s));
    PutNum(w, d.norm, 8, BigEndian(d.last, 8) + s);
    PutNum(w, d.last, 8, s);
    ghost var image := w.Image();
    for i := 0 to |d.sections|
      invariant Appending(w) && w.Image() + EncodeSectionList(d.sections[i..], rest) == image + EncodeSectionList(d.sections, rest)
    {
      assert d.sections[i..][1..] == d.sections[i + 1..];
      SaveSection(w, d.sections[i], EncodeSectionList(d.sections[i + 1..], rest));
    }
  }

  // A string with its length in front, if there is one
  method SaveText(w: Writer, b: seq<Byte>, ghost rest: seq<Byte>) returns (ret: int)
    requires Appending(w)
    modifies w, w.file, w.buf
    ensures |b| > BUFFER_SIZE ==> ret == BUFFER_NO_SPACE
    ensures |b| <= BUFFER_SIZE ==> ret == OK && Appending(w) && w.Image() + rest == old(w.Image()) + EncodeText(b, rest)
  {
    if |b| > 0 {
      PutNum(w, |b|, 8, b + rest);
      ret := PutStr(w, b, rest);
    } else {
      ret := OK;
    }
  }

  method SaveOptTime(w: Writer, t: Option<Time>, ghost rest: seq<Byte>)
    requires Appending(w) && (t.Some? ==> StorableTime(t.value))
    modifies w, w.file, w.buf
    ensures Appending(w) && w.Image() + rest == old(w.Image()) + EncodeOptTime(t, rest)
  {
    if t.Some? {
      SaveTime(w, t.value, rest);
    }
  }

  /** What save_file relies on in an entry. */
  predicate Savable(e: Record) {
    |e.branchId| == |e.id| == |e.parentId| == EID_LEN && |e.fileName| <= FILE_NAME_MAX && |e.userMsg| <= USER_MSG_MAX
    && StorableTimes(e) && (e.data.Some? ==> SavableFileData(e.data.value))
  }

  // "write field presence bitmap"
  method PresenceBitmap(e: Record) returns (bitmap: nat)
    ensures bitmap == Presence(e)
  {
    bitmap := 0;
    if |e.tagStr| > 0 {
      bitmap := bitmap + 1;
    }
    if |e.userMsg| > 0 {
      bitmap := bitmap + 2;
    }
    if e.tod.Some? {
      bitmap := bitmap + 4;
    }
    if e.tom.Some? {
      bitmap := bitmap + 8;
    }
    if e.tusr.Some? {
      bitmap := bitmap + 16;
    }
    if e.data.Some? {
      bitmap := bitmap + 32;
    }
  }

  // One entry. A tag string longer than the buffer cannot be written.
  method SaveRecord(w: Writer, e: Record, ghost rest: seq<Byte>) returns (ret: int)
    requires Appending(w) && Savable(e)
    modifies w, w.file, w.buf
    ensures |e.tagStr| > BUFFER_SIZE ==> ret == BUFFER_NO_SPACE
    ensures |e.tagStr| <= BUFFER_SIZE ==> ret == OK && Appending(w) && w.Image() + rest == old(w.Image()) + EncodeRecord(e, rest)
  {
    ghost var s5 := EncodeData(e, rest);
    ghost var s4 := EncodeTimes(e, s5);
    ghost var s3 := EncodeTexts(e, s4);
    SaveIds(w, e, EncodeBody(e, rest));
    SaveKindAndName(w, e, s3);
    ret := SaveTexts(w, e, s4);
    if ret != OK {
      return;
    }
    SaveTimes(w, e, s5);
    if e.data.Some? {
      SaveFileData(w, e.data.value, rest);
    }
  }

  method SaveIds(w: Writer, e: Record, ghost rest: seq<Byte>)
    requires Appending(w) && |e.branchId| == |e.id| == |e.parentId| == EID_LEN
    modifies w, w.file, w.buf
    ensures Appending(w) && w.Image() + rest == old(w.Image()) + (e.branchId + (e.id + (e.parentId + rest)))
  {
    var _ := PutStr(w, e.branchId, e.id + (e.parentId + rest));
    var _ := PutStr(w, e.id, e.parentId + rest);
    var _ := PutStr(w, e.parentId, rest);
  }

  method SaveKindAndName(w: Writer, e: Record, ghost rest: seq<Byte>)
    requires Appending(w) && |e.fileName| <= FILE_NAME_MAX
    modifies w, w.file, w.buf
    ensures Appending(w) && w.Image() + rest == old(w.Image()) + EncodeKind(e, EncodeName(e, rest))
  {
    var bitmap := PresenceBitmap(e);
    ghost var s5 := BigEndian(bitmap, 8) + rest;
    ghost var s4 := EncodeName(e, rest);
    PutNum(w, e.kind, 1, BigEndian(e.childNum, 8) + (BigEndian(e.createdBy, 1) + s4));
    PutNum(w, e.childNum, 8, BigEndian(e.createdBy, 1) + s4);
    PutNum(w, e.createdBy, 1, s4);
    PutNum(w, |e.fileName|, 8, e.fileName + s5);
    var _ := PutStr(w, e.fileName, s5);
    PutNum(w, bitmap, 8, rest);
  }

  method SaveTexts(w: Writer, e: Record, ghost rest: seq<Byte>) returns (ret: int)
    requires Appending(w) && |e.userMsg| <= USER_MSG_MAX
    modifies w, w.file, w.buf
    ensures |e.tagStr| > BUFFER_SIZE ==> ret == BUFFER_NO_SPACE
    ensures |e.tagStr| <= BUFFER_SIZE ==> ret == OK && Appending(w) && w.Image() + rest == old(w.Image()) + EncodeTexts(e, rest)
  {
    ret := SaveText(w, e.tagStr, EncodeText(e.userMsg, rest));
    if ret != OK {
      return;
    }
    ret := SaveText(w, e.userMsg, rest);
  }

  method SaveTimes(w: Writer, e: Record, ghost rest: seq<Byte>)
    requires Appending(w) && StorableTimes(e)
    modifies w, w.file, w.buf
    ensures Appending(w) && w.Image() + rest == old(w.Image()) + EncodeTimes(e, rest)
  {
    SaveOptTime(w, e.tod, EncodeOptTime(e.tom, EncodeOptTime(e.tusr, rest)));
    SaveOptTime(w, e.tom, EncodeOptTime(e.tusr, rest));
    SaveOptTime(w, e.tusr, rest);
  }

  // ---------------------------------------------------------------------
  // The file

  /** The head and tail marker of the file. */
  function Marker(): (r: seq<Byte>)
    ensures |r| == 15
  {
    seq(15, i requires 0 <= i < 15 => i + 1)
  }

  /** "00.01" */
  function Version(): (r: seq<Byte>) {
    [48, 48, 46, 48, 49]
  }

  function EncodeAll(es: seq<Record>, rest: seq<Byte>): seq<Byte>
    requires forall i :: 0 <= i < |es| ==> StorableTimes(es[i])
  {
    if es == [] then rest else EncodeRecord(es[0], EncodeAll(es[1..], rest))
  }

  function EncodeHeader(branches: nat): seq<Byte> {
    Marker() + Version() + BigEndian(branches, 8)
  }

  /** The database file. */
  function EncodeFile(branches: nat, es: seq<Record>): seq<Byte>
    requires forall i :: 0 <= i < |es| ==> StorableTimes(es[i])
  {
    EncodeHeader(branches) + (BigEndian(|es|, 8) + EncodeAll(es, Marker()))
  }

  lemma MarkerBytes()
    ensures Marker() == [1, 2, 3, 4, 5, 6, 7, 8, 9, 10, 11, 12, 13, 14, 15]
  {
  }

  /** The layout of the file up to the entries. */
  lemma FileLayout(branches: nat, es: seq<Record>)
    requires forall i :: 0 <= i < |es| ==> StorableTimes(es[i])
    ensures var s := EncodeFile(branches, es);
      |s| >= 36 && s[..15] == [1, 2, 3, 4, 5, 6, 7, 8, 9, 10, 11, 12, 13, 14, 15] && s[15..20] == [48, 48, 46, 48, 49]
      && s[20..28] == BigEndian(branches, 8) && s[28..36] == BigEndian(|es|, 8) && s[36..] == EncodeAll(es, Marker())
  {
    hide EncodeAll, BigEndian, Marker;
    MarkerBytes();
    var s, tail := EncodeFile(branches, es), BigEndian(|es|, 8) + EncodeAll(es, Marker());
    assert s[0..] == Marker() + (Version() + (BigEndian(branches, 8) + tail));
    Piece(s, 0, Marker(), Version() + (BigEndian(branches, 8) + tail));
    Piece(s, 15, Version(), BigEndian(branches, 8) + tail);
    Piece(s, 20, BigEndian(branches, 8), tail);
    Piece(s, 28, BigEndian(|es|, 8), EncodeAll(es, Marker()));
  }

  /** What is written for an entry: the parent's id and the number of children come from the tree. */
  ghost function RecordOf(x: Entry): Record
    reads x, x.parent
  {
    x.body.(parentId := if x.parent == null then [] else x.parent.body.id, childNum := |x.child|)
  }

  /** Overwriting the dummy count changes the eight count bytes and nothing else. */
  lemma CountPatched(head: seq<Byte>, old_: seq<Byte>, new_: seq<Byte>, rest: seq<Byte>)
    requires |old_| == |new_|
    ensures |head| <= |head + (old_ + rest)|
    ensures Overwrite(head + (old_ + rest), |head|, new_) == head + (new_ + rest)
  {
    var d := head + (old_ + rest);
    assert d[..|head|] == head && d[|head| + |new_|..] == rest;
  }

  /** `list` hangs off `root` by `linkNext`, and its entries are what is to be written. */
  ghost predicate Threaded(root: Entry, list: seq<Entry>, es: seq<Record>)
    reads root, list, set x | x in list :: x.parent
  {
    |es| == |list| && Chain([root] + list)
    && forall i :: 0 <= i < |list| ==> list[i].parent != null && RecordOf(list[i]) == es[i] && Savable(es[i])
  }

  // Preamble, version and number of branches, flushed
  method SaveHeader(w: Writer, branches: nat)
    requires Appending(w) && w.Image() == []
    modifies w, w.file, w.buf
    ensures Appending(w) && w.Image() == EncodeHeader(branches) && w.filePos == |w.Image()|
  {
    ghost var s2 := BigEndian(branches, 8) + [];
    var _ := PutStr(w, Marker(), Version() + s2);
    var _ := PutStr(w, Version(), s2);
    PutNum(w, branches, 8, []);
    assert [] + (Marker() + (Version() + s2)) == EncodeHeader(branches);
    assert w.Image() + [] == w.Image();
    w.FlushBuf();
  }

  /** The tag strings of the first `n` entries fit the buffer. */
  predicate TagsFit(es: seq<Record>, n: nat)
    requires n <= |es|
  {
    forall i :: 0 <= i < n ==> |es[i].tagStr| <= BUFFER_SIZE
  }

  lemma FirstThreaded(root: Entry, list: seq<Entry>, es: seq<Record>)
    requires Threaded(root, list, es)
    ensures root.linkNext == if list == [] then null else list[0]
  {
    assert Place(0);
  }

  lemma AllEncoded(es: seq<Record>, rest: seq<Byte>)
    requires forall i :: 0 <= i < |es| ==> StorableTimes(es[i])
    ensures EncodeAll(es[0..], rest) == EncodeAll(es, rest) && EncodeAll(es[|es|..], rest) == rest
  {
    assert es[0..] == es;
  }

  // "traverse through the linked list and write each entry into file"
  method SaveEntries(w: Writer, root: Entry, ghost list: seq<Entry>, ghost es: seq<Record>, ghost rest: seq<Byte>) returns (ret: int, total: nat)
    requires Appending(w) && Threaded(root, list, es)
    modifies w, w.file, w.buf
    ensures !TagsFit(es, |es|) ==> ret == BUFFER_NO_SPACE
    ensures TagsFit(es, |es|) ==>
      ret == OK && total == |es| && Appending(w) && w.Image() + rest == old(w.Image()) + EncodeAll(es, rest)
  {
    hide EncodeRecord, Chain, RecordOf, EncodeAll;
    total := 0;
    ret := OK;
    FirstThreaded(root, list, es);
    AllEncoded(es, rest);
    var entry := root.linkNext;
    ghost var image := w.Image();
    while entry != null
      invariant total <= |list| && entry == if total < |list| then list[total] else null
      invariant Appending(w) && ret == OK && Threaded(root, list, es)
      invariant total <= |es| && TagsFit(es, total)
      invariant w.Image() + EncodeAll(es[total..], rest) == image + EncodeAll(es, rest)
      decreases |list| - total
    {
      ret, entry := SaveNext(w, entry, root, list, es, total, rest);
      if ret != OK {
        return;
      }
      total := total + 1;
    }
  }

  method SaveNext(w: Writer, entry: Entry, ghost root: Entry, ghost list: seq<Entry>, ghost es: seq<Record>, ghost i: nat, ghost rest: seq<Byte>)
    returns (ret: int, next: Entry?)
    requires Appending(w) && Threaded(root, list, es) && i < |list| && entry == list[i]
    modifies w, w.file, w.buf
    ensures |es[i].tagStr| > BUFFER_SIZE ==> ret == BUFFER_NO_SPACE
    ensures |es[i].tagStr| <= BUFFER_SIZE ==>
      ret == OK && Appending(w) && w.Image() + EncodeAll(es[i + 1..], rest) == old(w.Image()) + EncodeAll(es[i..], rest)
    ensures next == if i + 1 < |list| then list[i + 1] else null
  {
    assert Place(i + 1) && ([root] + list)[i + 1] == list[i];
    assert es[i..][1..] == es[i + 1..];
    next := entry.linkNext;
    ret := SaveRecord(w, entry.body.(parentId := entry.parent.body.id, childNum := |entry.child|), EncodeAll(es[i + 1..], rest));
  }

  // "update the total entry number"
  method PatchCount(w: Writer, filePos: nat, total: nat) returns (ret: int)
    requires w.Valid() && filePos + 8 <= |w.Image()| && w.buf.Length == BUFFER_SIZE
    modifies w, w.file, w.buf
    ensures ret == OK && w.file.data == Overwrite(old(w.Image()), filePos, BigEndian(total, 8))
  {
    ret := w.BufSeek(filePos, SeekSet);
    FileBytes(total, 8, w.little);
    ret := w.CopyPtrToBuf(HostBytes(total, 8, w.little), false);
    w.FlushBuf();
  }

  // save_file after opening the file: `root` is the tree's root, already threaded.
  method SaveFile(w: Writer, root: Entry, ghost list: seq<Entry>, ghost es: seq<Record>) returns (ret: int)
    requires Appending(w) && w.Image() == [] && Threaded(root, list, es)
    modifies w, w.file, w.buf
    ensures !TagsFit(es, |es|) ==> ret == BUFFER_NO_SPACE
    ensures TagsFit(es, |es|) ==>
      ret == OK && w.file.data == EncodeFile(|root.child|, es)
  {
    var branches := |root.child|;
    SaveHeader(w, branches);
    ghost var head, body := w.Image(), EncodeAll(es, Marker());
    var filePos := w.filePos;
    PutNum(w, 0, 8, body);
    var total: nat;
    ret, total := SaveEntries(w, root, list, es, Marker());
    if ret != OK {
      return;
    }
    ret := SaveTail(w);
    assert w.Image() == head + (BigEndian(0, 8) + body);
    CountPatched(head, BigEndian(0, 8), BigEndian(total, 8), body);
    ret := PatchCount(w, filePos, total);
  }

  // "write tail"
  method SaveTail(w: Writer) returns (ret: int)
    requires Appending(w)
    modifies w, w.file, w.buf
    ensures ret == OK && Appending(w) && w.Image() == old(w.Image()) + Marker()
  {
    ret := PutStr(w, Marker(), []);
    assert w.Image() + [] == w.Image() && Marker() + [] == Marker();
  }
}
