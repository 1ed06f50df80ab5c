/** The buffered file access of save_file and load_file. Numbers are big endian in the file whatever the host. */
module BufferedFile {
  import opened Util
  import opened Arith
  import opened Codes

  type Byte = b: int | 0 <= b < 256

  /** A C `FILE` without errors and short counts. */
  class DataFile {
    var data: seq<Byte>
    var pos: nat

    constructor (data: seq<Byte>)
      ensures this.data == data && pos == 0
    {
      this.data, pos := data, 0;
    }

    // fwrite
    method Write(bytes: seq<Byte>)
      requires pos <= |data|
      modifies this
      ensures data == Overwrite(old(data), old(pos), bytes) && pos == old(pos) + |bytes|
    {
      data := Overwrite(data, pos, bytes);
      pos := pos + |bytes|;
    }

    // fread
    method Read(n: nat) returns (bytes: seq<Byte>)
      requires pos <= |data|
      modifies this`pos
      ensures bytes == old(data[pos..Min(pos + n, |data|)]) && pos == Min(old(pos) + n, |data|)
    {
      bytes := data[pos..Min(pos + n, |data|)];
      pos := Min(pos + n, |data|);
    }
  }

  /** `data` after writing `bytes` at `p`: the old content under them is replaced, the rest kept. */
  function Overwrite(data: seq<Byte>, p: nat, bytes: seq<Byte>): (r: seq<Byte>)
    requires p <= |data|
    ensures p + |bytes| <= |r| && |r| >= |data|
  {
    data[..p] + bytes + (if p + |bytes| <= |data| then data[p + |bytes|..] else [])
  }

  /** Writing in two pieces is writing at once. */
  lemma OverwriteTwice(data: seq<Byte>, p: nat, a: seq<Byte>, b: seq<Byte>)
    requires p <= |data|
    ensures Overwrite(Overwrite(data, p, a), p + |a|, b) == Overwrite(data, p, a + b)
  {
    var d := Overwrite(data, p, a);
    assert d[..p + |a|] == data[..p] + a;
  }

  lemma OverwriteNothing(data: seq<Byte>, p: nat)
    requires p <= |data|
    ensures Overwrite(data, p, []) == data
  {
  }

  function Reversed(s: seq<Byte>): (r: seq<Byte>)
    ensures |r| == |s|
  {
    seq(|s|, i requires 0 <= i < |s| => s[|s| - 1 - i])
  }

  lemma ReversedTwice(s: seq<Byte>)
    ensures Reversed(Reversed(s)) == s
  {
  }

  /** What an item in memory looks like in the file, and the other way round: strings are copied, numbers
      reversed on a little endian host. */
  function Converted(item: seq<Byte>, isString: bool, little: bool): (r: seq<Byte>)
    ensures |r| == |item|
  {
    if isString || !little then item else Reversed(item)
  }

  method MemcpyForward(dst: array<Byte>, at: nat, src: seq<Byte>)
    requires at + |src| <= dst.Length
    modifies dst
    ensures dst[..] == old(dst[..at]) + src + old(dst[at + |src|..])
  {
    var i := 0;
    while i < |src|
      invariant 0 <= i <= |src|
      invariant forall j :: 0 <= j < dst.Length ==> dst[j] == if at <= j < at + i then src[j - at] else old(dst[j])
    {
      dst[at + i] := src[i];
      i := i + 1;
    }
  }

  method MemcpyReverse(dst: array<Byte>, at: nat, src: seq<Byte>)
    requires at + |src| <= dst.Length
    modifies dst
    ensures dst[..] == old(dst[..at]) + Reversed(src) + old(dst[at + |src|..])
  {
    var i := 0;
    while i < |src|
      invariant 0 <= i <= |src|
      invariant forall j :: 0 <= j < dst.Length ==>
        dst[j] == if at + |src| - i <= j < at + |src| then src[at + |src| - 1 - j] else old(dst[j])
    {
      dst[at + |src| - 1 - i] := src[i];
      i := i + 1;
    }
  }

  /** What a seek counts from. */
  datatype Whence = SeekSet | SeekCur | SeekEnd | Unknown

  function From(whence: Whence, position: nat, length: nat): nat {
    if whence == SeekCur then position else if whence == SeekEnd then length else 0
  }

  /** `buffer_info`, in write mode. */
  class Writer {
    const file: DataFile
    const buf: array<Byte>
    const little: bool
    var fileSize: nat
    var filePos: nat
    var pos: nat

    ghost predicate Valid()
      reads this, file
    {
      filePos == file.pos <= |file.data| && pos <= buf.Length
    }

    /** The file as it will be once the buffer is flushed. */
    ghost function Image(): seq<Byte>
      requires Valid()
      reads this, file, buf
    {
      Overwrite(file.data, filePos, buf[..pos])
    }

    /** Where the next item goes. */
    ghost function Position(): nat
      reads this
    {
      filePos + pos
    }

    // init_buffer_info for writing to a file just created
    constructor (file: DataFile, size: nat, little: bool)
      requires file.pos == 0 && file.data == []
      ensures Valid() && Image() == [] && Position() == 0 && buf.Length == size
      ensures this.file == file && this.little == little && fresh(this) && fresh(buf)
    {
      this.file, this.little := file, little;
      buf := new Byte[size];
      fileSize, filePos, pos := 0, 0, 0;
    }

    // flush_buf
    method FlushBuf()
      requires Valid()
      modifies this`fileSize, this`filePos, this`pos, file
      ensures Valid() && pos == 0 && file.data == Image() == old(Image()) && Position() == old(Position())
      ensures fileSize >= old(fileSize)
      ensures old(fileSize == |file.data| && (filePos == fileSize || filePos + pos <= fileSize)) ==> fileSize == |file.data|
    {
      if pos > 0 {
        file.Write(buf[..pos]);
        if filePos == fileSize {
          fileSize := fileSize + pos;
        }
        filePos := filePos + pos;
        pos := 0;
      }
      OverwriteNothing(file.data, filePos);
    }

    // copy_ptr_to_buf
    method CopyPtrToBuf(item: seq<Byte>, isString: bool) returns (ret: int)
      requires Valid()
      modifies this`fileSize, this`filePos, this`pos, file, buf
      ensures Valid()
      ensures old(Position()) <= |old(Image())|
      ensures |item| > buf.Length ==> ret == BUFFER_NO_SPACE && Image() == old(Image()) && Position() == old(Position())
      ensures |item| <= buf.Length ==> ret == OK && Position() == old(Position()) + |item|
      ensures |item| <= buf.Length ==> Image() == Overwrite(old(Image()), old(Position()), Converted(item, isString, little))
    {
      hide Overwrite;
      var space := buf.Length - pos;
      if |item| > buf.Length {
        return BUFFER_NO_SPACE;
      }
      if space < |item| {
        FlushBuf();
      }
      ghost var before := buf[..pos];
      PutInBuffer(item, isString);
      OverwriteTwice(file.data, filePos, before, Converted(item, isString, little));
      ret := OK;
    }

    method PutInBuffer(item: seq<Byte>, isString: bool)
      requires pos + |item| <= buf.Length
      modifies this`pos, buf
      ensures pos == old(pos) + |item| && buf[..pos] == old(buf[..pos]) + Converted(item, isString, little)
    {
      if isString || !little {
        MemcpyForward(buf, pos, item);
      } else {
        MemcpyReverse(buf, pos, item);
      }
      pos := pos + |item|;
    }

    // buf_seek, to a place within the file. From the end the counter is moved the other way than the file, so that it
    // does not tell the place any more.
    method BufSeek(offset: int, whence: Whence) returns (ret: int)
      requires Valid()
      requires whence != Unknown ==> 0 <= From(whence, Position(), |Image()|) + offset <= |Image()|
      requires whence == SeekEnd ==> offset < fileSize
      modifies this`fileSize, this`filePos, this`pos, file
      ensures ret == (if whence == Unknown then WRONG_ARGS else OK) && pos == 0 && file.data == old(Image())
      ensures whence != Unknown ==> file.pos == old(From(whence, Position(), |Image()|)) + offset
      ensures whence != SeekEnd ==> Valid() && Image() == old(Image())
      ensures whence == Unknown ==> Position() == old(Position())
      ensures whence == SeekEnd ==> filePos == fileSize - 1 - offset && (fileSize == |file.data| ==> filePos != file.pos)
    {
      FlushBuf();
      match whence {
        case SeekSet => file.pos, filePos := offset, offset;
        case SeekCur => file.pos, filePos := file.pos + offset, filePos + offset;
        case SeekEnd => file.pos, filePos := |file.data| + offset, fileSize - 1 - offset;
        case Unknown => return WRONG_ARGS;
      }
      OverwriteNothing(file.data, file.pos);
      ret := OK;
    }
  }

  /** `buffer_info`, in read mode. */
  class Reader {
    const file: DataFile
    const buf: array<Byte>
    const backup: array<Byte>
    const little: bool
    var fileSize: nat
    var filePos: nat
    var pos: nat
    var eol: bool
    var altSize: nat

    /** How many whole buffers have been read. */
    ghost var fills: nat

    /** The end of what the buffer holds. */
    function Limit(): nat
      reads this
    {
      if eol then altSize else buf.Length
    }

    /** The file is read in whole buffers until a short one. */
    ghost predicate Valid()
      reads this, file
    {
      0 < buf.Length == backup.Length && buf != backup
      && filePos == file.pos <= |file.data| == fileSize && pos <= Limit() <= buf.Length
      && (if eol then filePos == fileSize && 0 < altSize < buf.Length && filePos == Whole(fills, buf.Length) + altSize
          else filePos == Whole(fills, buf.Length) && 0 < pos && (fills == 0 ==> pos == buf.Length))
    }

    /** What has not been read yet. */
    ghost function Rest(): seq<Byte>
      requires Valid()
      reads this, file, buf
    {
      buf[pos..Limit()] + file.data[file.pos..]
    }

    // init_buffer_info for reading
    constructor (file: DataFile, size: nat, little: bool)
      requires file.pos == 0 && 0 < size
      ensures Valid() && Rest() == file.data && !eol && buf.Length == size
      ensures this.file == file && this.little == little && fresh(this) && fresh(buf) && fresh(backup)
    {
      this.file, this.little := file, little;
      buf := new Byte[size];
      backup := new Byte[size];
      fileSize, filePos := |file.data|, 0;
      pos, eol, altSize, fills := size, false, 0, 0;
    }

    // copy_buf_to_ptr; the item is returned. Once a read has failed the reader is not used again.
    method CopyBufToPtr(size: nat, isString: bool) returns (ret: int, item: seq<Byte>)
      requires Valid()
      modifies this`filePos, this`pos, this`eol, this`altSize, this`fills, file`pos, buf, backup
      ensures size > buf.Length ==> ret == BUFFER_NO_SPACE
      ensures size <= buf.Length && |old(Rest())| < size ==> ret == if old(eol) then FILE_END else FILE_END_TOO_SOON
      ensures size <= buf.Length && |old(Rest())| >= size ==>
        ret == OK && Valid() && Rest() == old(Rest())[size..] && item == Converted(old(Rest())[..size], isString, little)
    {
      item := [];
      if size > buf.Length {
        return BUFFER_NO_SPACE, [];
      }
      var space := if eol then altSize - pos else buf.Length - pos;
      if space >= size {
        item := TakeBuffered(size, isString);
        return OK, item;
      }
      if eol {
        return FILE_END, [];
      }
      ret, item := ReadAcross(size, isString);
    }

    // The whole item is in the buffer.
    method TakeBuffered(size: nat, isString: bool) returns (item: seq<Byte>)
      requires Valid() && pos + size <= Limit()
      modifies this`pos
      ensures Valid() && Rest() == old(Rest())[size..] && size <= |old(Rest())| && item == Converted(old(Rest())[..size], isString, little)
    {
      hide Converted, Whole;
      ghost var taken, more := buf[pos..pos + size], buf[pos + size..Limit()];
      assert buf[pos..Limit()] == taken + more;
      Cat(taken, more, file.data[file.pos..]);
      assert Rest()[..size] == taken && Rest()[size..] == more + file.data[file.pos..];
      item := Converted(buf[pos..pos + size], isString, little);
      pos := pos + size;
    }

    // The item starts in the buffer and ends in the next one.
    method ReadAcross(size: nat, isString: bool) returns (ret: int, item: seq<Byte>)
      requires Valid() && !eol && buf.Length - pos < size <= buf.Length
      modifies this`filePos, this`pos, this`eol, this`altSize, this`fills, file`pos, buf, backup
      ensures |old(Rest())| < size ==> ret == FILE_END_TOO_SOON
      ensures |old(Rest())| >= size ==>
        ret == OK && Valid() && Rest() == old(Rest())[size..] && item == Converted(old(Rest())[..size], isString, little)
    {
      var space := buf.Length - pos;
      ghost var all, first, tail := Rest(), buf[pos..], file.data[file.pos..];
      assert all == first + tail;
      item := [];
      if isString || !little {
        item := buf[pos..pos + space];
      } else {
        MemcpyForward(backup, 0, buf[pos..pos + space]);
      }
      ret := Refill(size - space);
      if ret != OK {
        return;
      }
      item := Finish(item, space, size, isString, first, all);
    }

    method Finish(part: seq<Byte>, space: nat, size: nat, isString: bool, ghost first: seq<Byte>, ghost all: seq<Byte>) returns (item: seq<Byte>)
      requires 0 < buf.Length == backup.Length && buf != backup && space == |first| < size <= buf.Length
      requires pos == 0 && size - space <= Limit() <= buf.Length && filePos == file.pos <= |file.data| == fileSize
      requires if eol then filePos == fileSize && altSize < buf.Length && filePos == Whole(fills, buf.Length) + altSize
               else filePos == Whole(fills, buf.Length) && fills > 0
      requires all == first + (buf[..Limit()] + file.data[file.pos..])
      requires if isString || !little then part == first else backup[..space] == first
      modifies this`pos, backup
      ensures Valid() && Rest() == all[size..] && item == Converted(all[..size], isString, little)
    {
      assert buf[..Limit()] == buf[..size - space] + buf[size - space..Limit()];
      Joined(all, first, buf[..size - space], buf[size - space..Limit()], file.data[file.pos..]);
      item := FinishItem(part, space, size, isString, first);
      pos := size - space;
    }

    // "now finish copying the remaining bit": the first part is in `part`, or for a number to be reversed in the backup buffer.
    method FinishItem(part: seq<Byte>, space: nat, size: nat, isString: bool, ghost first: seq<Byte>) returns (item: seq<Byte>)
      requires space == |first| < size <= buf.Length == backup.Length && buf != backup
      requires if isString || !little then part == first else backup[..space] == first
      modifies backup
      ensures item == Converted(first + buf[..size - space], isString, little)
    {
      if isString || !little {
        return part + buf[..size - space];
      }
      MemcpyForward(backup, space, buf[..size - space]);
      assert backup[..size] == first + buf[..size - space];
      item := Reversed(backup[..size]);
    }

    // "load more things into buffer"; `need` bytes are wanted from it.
    method Refill(need: nat) returns (ret: int)
      requires Valid() && !eol && 0 < need <= buf.Length
      modifies this`filePos, this`pos, this`eol, this`altSize, this`fills, file`pos, buf
      ensures ret == if |old(file.data[file.pos..])| < need then FILE_END_TOO_SOON else OK
      ensures ret == OK ==> pos == 0 && need <= Limit() <= buf.Length && filePos == file.pos <= |file.data|
      ensures ret == OK ==> buf[..Limit()] + file.data[file.pos..] == old(file.data[file.pos..])
      ensures ret == OK ==> if eol then filePos == fileSize && altSize < buf.Length && filePos == Whole(fills, buf.Length) + altSize
                            else filePos == Whole(fills, buf.Length) && fills > 0
    {
      var bytes := file.Read(buf.Length);
      MemcpyForward(buf, 0, bytes);
      filePos := filePos + |bytes|;
      pos := 0;
      if |bytes| < buf.Length {
        if filePos != fileSize {
          return FREAD_ERROR;
        }
        eol := true;
        altSize := |bytes|;
        if need > altSize {
          return FILE_END_TOO_SOON;
        }
      } else {
        fills := fills + 1;
      }
      ret := OK;
    }

    // The last test of load_file: "file is longer than expected"
    method AtEnd() returns (accepted: bool)
      requires Valid()
      ensures accepted <==> Rest() == [] || (!eol && file.pos == |file.data|)
    {
      accepted := !(filePos != fileSize || (eol && pos != altSize));
    }
  }

  lemma RestFits(r: Reader)
    requires r.Valid()
    ensures |r.Rest()| <= |r.file.data|
  {
    WholeMod(r.fills, r.buf.Length, 0);
  }

  lemma Joined(all: seq<Byte>, first: seq<Byte>, chunk: seq<Byte>, more: seq<Byte>, left: seq<Byte>)
    requires all == first + (chunk + more + left)
    ensures all[..|first + chunk|] == first + chunk && all[|first + chunk|..] == more + left
  {
    assert all == (first + chunk) + (more + left);
  }

  lemma Cat(a: seq<Byte>, b: seq<Byte>, c: seq<Byte>)
    ensures (a + b) + c == a + (b + c)
  {
  }

  /** The size of `k` whole buffers. */
  ghost function Whole(k: nat, size: nat): nat {
    if k == 0 then 0 else Whole(k - 1, size) + size
  }

  lemma {:induction false} WholeIsProduct(k: nat, size: nat)
    ensures Whole(k, size) == k * size
  {
    if k > 0 {
      WholeIsProduct(k - 1, size);
      assert k * size == (k - 1) * size + size;
    }
  }

  lemma WholeMod(k: nat, size: nat, rest: nat)
    requires rest < size
    ensures (Whole(k, size) + rest) % size == rest
    ensures k > 0 ==> Whole(k, size) >= size
  {
    WholeIsProduct(k, size);
    DivMod(k, size, rest);
  }

  /** When the end test accepts: everything has been read, or the file is a whole number of buffers long
      and what is left fits in the last one. So trailing bytes can go unnoticed. */
  lemma EndTest(r: Reader, read: nat)
    requires r.Valid() && read + |r.Rest()| == |r.file.data| && 0 < read
    ensures r.Rest() == [] || (!r.eol && r.file.pos == |r.file.data|) <==>
            read == |r.file.data| || (|r.file.data| % r.buf.Length == 0 && |r.file.data| - r.buf.Length < read)
  {
    assert |r.Rest()| == r.Limit() - r.pos + (|r.file.data| - r.file.pos);
    var whole := Whole(r.fills, r.buf.Length);
    WholeMod(r.fills, r.buf.Length, if r.eol then r.altSize else 0);
    EndTestArith(|r.file.data|, r.buf.Length, whole, r.eol, r.altSize, r.pos, read);
  }

  lemma EndTestArith(n: nat, size: nat, whole: nat, eol: bool, alt: nat, pos: nat, read: nat)
    requires pos <= size && 0 < size
    requires if eol then n == whole + alt && 0 < alt && n % size == alt else 0 < pos && whole <= n && whole % size == 0
    requires read == if eol then n - alt + pos else whole - size + pos
    ensures read == n || (!eol && whole == n) <==> read == n || (n % size == 0 && n - size < read)
  {
    if !eol && n % size == 0 && n - size < read {
      CloseMultiples(n, whole, size);
    }
  }

  // ---------------------------------------------------------------------
  // Items

  /** Something passed to copy_ptr_to_buf or got from copy_buf_to_ptr. */
  datatype Item = Item(bytes: seq<Byte>, isString: bool)

  /** The file content of a sequence of items: it does not know about buffers. */
  function Encoded(items: seq<Item>, little: bool): seq<Byte> {
    if items == [] then []
    else Encoded(items[..|items| - 1], little) + Converted(items[|items| - 1].bytes, items[|items| - 1].isString, little)
  }

  /** The file content of the items from the `i`-th on, with `after` behind them. */
  ghost function Left(items: seq<Item>, i: nat, little: bool, after: seq<Byte>): seq<Byte>
    requires i <= |items|
    decreases |items| - i
  {
    if i == |items| then after else Converted(items[i].bytes, items[i].isString, little) + Left(items, i + 1, little, after)
  }

  lemma {:induction false} EncodedSplit(items: seq<Item>, i: nat, little: bool, after: seq<Byte>)
    requires i <= |items|
    ensures Encoded(items, little) + after == Encoded(items[..i], little) + Left(items, i, little, after)
    decreases |items| - i
  {
    if i < |items| {
      EncodedSplit(items, i + 1, little, after);
      assert items[..i + 1][..i] == items[..i];
      Cat(Encoded(items[..i], little), Converted(items[i].bytes, items[i].isString, little), Left(items, i + 1, little, after));
    } else {
      assert items[..i] == items;
    }
  }

  // A sequence of copy_ptr_to_buf calls: where the buffer was flushed in between leaves no trace.
  method WriteItems(w: Writer, items: seq<Item>)
    requires w.Valid() && forall i :: 0 <= i < |items| ==> |items[i].bytes| <= w.buf.Length
    modifies w`fileSize, w`filePos, w`pos, w.file, w.buf
    ensures w.Valid() && old(w.Position()) <= |old(w.Image())|
    ensures w.Image() == Overwrite(old(w.Image()), old(w.Position()), Encoded(items, w.little))
    ensures w.Position() == old(w.Position()) + |Encoded(items, w.little)|
  {
    ghost var image, p := w.Image(), w.Position();
    OverwriteNothing(image, p);
    for i := 0 to |items|
      invariant w.Valid() && p <= |image| && w.Position() == p + |Encoded(items[..i], w.little)|
      invariant w.Image() == Overwrite(image, p, Encoded(items[..i], w.little))
    {
      WriteItem(w, items[i], Encoded(items[..i], w.little), image, p);
      assert items[..i + 1][..i] == items[..i];
    }
    assert items[..|items|] == items;
  }

  method WriteItem(w: Writer, item: Item, ghost done: seq<Byte>, ghost image: seq<Byte>, ghost p: nat)
    requires w.Valid() && |item.bytes| <= w.buf.Length
    requires p <= |image| && w.Position() == p + |done| && w.Image() == Overwrite(image, p, done)
    modifies w`fileSize, w`filePos, w`pos, w.file, w.buf
    ensures w.Valid()
    ensures var more := done + Converted(item.bytes, item.isString, w.little); w.Position() == p + |more| && w.Image() == Overwrite(image, p, more)
  {
    var _ := w.CopyPtrToBuf(item.bytes, item.isString);
    OverwriteTwice(image, p, done, Converted(item.bytes, item.isString, w.little));
  }

  // The copy_buf_to_ptr calls with the same sizes and kinds: they give back the items, whatever the buffer
  // boundaries and whatever the byte order of the host.
  method ReadItems(r: Reader, ghost items: seq<Item>, sizes: seq<nat>, isString: seq<bool>, ghost after: seq<Byte>)
    returns (got: seq<Item>)
    requires r.Valid() && |sizes| == |isString| == |items|
    requires forall i :: 0 <= i < |items| ==> sizes[i] == |items[i].bytes| <= r.buf.Length && isString[i] == items[i].isString
    requires r.Rest() == Encoded(items, r.little) + after
    modifies r`filePos, r`pos, r`eol, r`altSize, r`fills, r.file`pos, r.buf, r.backup
    ensures r.Valid() && r.Rest() == after && got == items
  {
    got := [];
    EncodedSplit(items, 0, r.little, after);
    assert r.Rest() == Left(items, 0, r.little, after);
    for i := 0 to |sizes|
      invariant r.Valid() && |got| == i && forall k :: 0 <= k < i ==> got[k] == items[k]
      invariant r.Rest() == Left(items, i, r.little, after)
    {
      var bytes := ReadItem(r, items[i], sizes[i], isString[i], Left(items, i + 1, r.little, after));
      got := got + [Item(bytes, isString[i])];
    }
  }

  method ReadItem(r: Reader, ghost item: Item, size: nat, isString: bool, ghost after: seq<Byte>) returns (bytes: seq<Byte>)
    requires r.Valid() && size == |item.bytes| <= r.buf.Length && isString == item.isString
    requires r.Rest() == Converted(item.bytes, isString, r.little) + after
    modifies r`filePos, r`pos, r`eol, r`altSize, r`fills, r.file`pos, r.buf, r.backup
    ensures r.Valid() && r.Rest() == after && bytes == item.bytes
  {
    ReversedTwice(item.bytes);
    var ret;
    ret, bytes := r.CopyBufToPtr(size, isString);
  }
}
