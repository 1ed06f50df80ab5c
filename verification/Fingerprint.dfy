/** `fingerprint_file`: what is recorded of a file's content. */
module Fingerprint {
  import opened Util
  import opened Arith
  import opened Codes
  import opened BufferedFile
  import opened Records
  import opened Sectioning

  const FILE_BUFFER_SIZE: nat := 1024

  /** The kinds of checksum wanted of the file and of its sections, and whether extracts are. */
  datatype Flags = Flags(fileSums: set<nat>, fileExtracts: bool, sectSums: set<nat>, sectExtracts: bool)

  /** A digest function for every kind of checksum. */
  type Digest = (nat, seq<Byte>) -> seq<Byte>

  ghost predicate FitsSlots(hash: Digest) {
    forall kind, b :: |hash(kind, b)| <= CHECKSUM_MAX_LEN
  }

  /** The slots for some input: those of the wanted kinds used. */
  function SumsOf(hash: Digest, kinds: set<nat>, input: seq<Byte>): (r: seq<Checksum>)
    ensures |r| == 3
  {
    [SumOf(hash, kinds, input, 1), SumOf(hash, kinds, input, 2), SumOf(hash, kinds, input, 3)]
  }

  function SumOf(hash: Digest, kinds: set<nat>, input: seq<Byte>, kind: nat): Checksum {
    if kind in kinds then Checksum(kind, hash(kind, input)) else Unused()
  }

  lemma SumsStorable(hash: Digest, kinds: set<nat>, input: seq<Byte>)
    requires FitsSlots(hash)
    ensures StorableChecksums(SumsOf(hash, kinds, input))
  {
  }

  /** Size of a section. */
  function SizeOf(p: Plan, i: nat): nat {
    if i + 1 < p.num then p.norm else p.last
  }

  /** The bytes of a section, as far as the file has them. */
  function SectionBytes(data: seq<Byte>, p: Plan, i: nat): seq<Byte> {
    data[Min(StartPos(p, i), |data|)..Min(StartPos(p, i) + SizeOf(p, i), |data|)]
  }

  /** The extracts of `size` bytes from `base` on. */
  function ExtractsOf(data: seq<Byte>, base: nat, size: nat): (r: seq<Extract>)
    requires 0 < size && base + size <= |data|
    ensures |r| == SampleFor(size).num
  {
    var s := SampleFor(size);
    seq(s.num, i requires 0 <= i < s.num => ExtractAt(data, base, size, i))
  }

  function ExtractAt(data: seq<Byte>, base: nat, size: nat, i: nat): Extract
    requires 0 < size && base + size <= |data| && i < SampleFor(size).num
  {
    var s := SampleFor(size);
    SampleIsModest(size);
    ExtractsApart(size, s, i, i);
    Extract(base + ExtractPos(size, s, i), data[base + ExtractPos(size, s, i)..base + ExtractPos(size, s, i) + s.len])
  }

  // The loop over one section's content, in pieces of the buffer size; `left` is what the file did not have
  method ReadBytes(file: DataFile, want: nat) returns (input: seq<Byte>, left: nat)
    requires file.pos <= |file.data|
    modifies file`pos
    ensures input == old(file.data[file.pos..Min(file.pos + want, |file.data|)]) && file.pos == Min(old(file.pos) + want, |file.data|)
    ensures left == want - |input|
  {
    input, left := [], want;
    ghost var start := file.pos;
    while left > 0
      invariant start <= file.pos <= |file.data| && input == file.data[start..file.pos] && left + |input| == want
      decreases left
    {
      var bytes := file.Read(if FILE_BUFFER_SIZE < left then FILE_BUFFER_SIZE else left);
      if |bytes| == 0 {
        break;
      }
      input := input + bytes;
      left := left - |bytes|;
    }
  }

  /** A section as recorded, extracts apart. */
  function Summed(data: seq<Byte>, p: Plan, i: nat, flags: Flags, hash: Digest): Section
    requires 0 < p.norm && 0 < p.last
  {
    Section(StartPos(p, i), EndPos(p, i), SumsOf(hash, flags.sectSums, SectionBytes(data, p, i)), [])
  }

  /** The number of sections that are read, some or none of the last one, when the file ends after `have` bytes. */
  function Reached(p: Plan, have: nat): nat
    requires 0 < p.norm
  {
    have / p.norm + 1
  }

  lemma ReachedIn(size: nat, p: Plan, have: nat, i: nat)
    requires Covers(size, p) && i < p.num && StartPos(p, i) <= have < StartPos(p, i) + SizeOf(p, i)
    ensures Reached(p, have) == i + 1
  {
    DivMod(i, p.norm, have - StartPos(p, i));
  }

  lemma ReachedBound(size: nat, p: Plan, have: nat)
    requires Covers(size, p) && have < size
    ensures Reached(p, have) <= p.num && StartPos(p, Reached(p, have) - 1) <= have
  {
    Tiling(size, p, have);
    var i: nat :| InSection(p, i, have);
    ReachedIn(size, p, have, i);
  }

  /** What becomes of a plan when the file ends early: number and sizes of sections, size of the file, and the
      number of sections that is recorded. */
  datatype Cut = Cut(num: nat, norm: int, last: int, size: int, recorded: int)

  // "file ended before fingerprinting is finished"
  method CutShort(p: Plan, i: nat, left: nat) returns (c: Cut)
    requires i < p.num
    ensures c.num == i + 1 && c.size == StartPos(p, i) + SizeOf(p, i) - left
    ensures c.recorded == if p.num > 1 then p.num - c.num else p.num
  {
    var norm: int, last: int := p.norm, p.last;
    if i < p.num - 1 {
      last := norm - left;
    } else {
      last := last - left;
      if p.num == 1 {
        norm := last;
      }
    }
    var recorded := p.num;
    if p.num > 1 {
      recorded := p.num - (i + 1);
    }
    var num := i + 1;
    c := Cut(num, norm, last, (num - 1) * norm + last, recorded);
  }

  // One section: `input` is what was there to be read
  method ReadSection(file: DataFile, size: nat, p: Plan, i: nat, flags: Flags, hash: Digest)
    returns (x: Section, input: seq<Byte>, left: nat)
    requires Covers(size, p) && i < p.num && file.pos == StartPos(p, i) <= |file.data|
    modifies file`pos
    ensures file.pos == Min(StartPos(p, i) + SizeOf(p, i), |file.data|) && input == file.data[StartPos(p, i)..file.pos]
    ensures left == StartPos(p, i) + SizeOf(p, i) - file.pos
    ensures x == Summed(file.data, p, i, flags, hash)
  {
    var start := i * p.norm;
    var want := if i < p.num - 1 then p.norm else p.last;
    input, left := ReadBytes(file, want);
    x := Section(start, start + want - 1, SumsOf(hash, flags.sectSums, input), []);
  }

  /** The sections before `n` have been read. */
  ghost predicate ReadSoFar(data: seq<Byte>, size: nat, p: Plan, n: nat, flags: Flags, hash: Digest, pos: nat, sections: seq<Section>, whole: seq<Byte>)
    requires Covers(size, p) && n <= p.num
  {
    pos == (if n < p.num then StartPos(p, n) else size) && pos <= |data| && whole == data[..pos] && |sections| == n
    && forall k :: 0 <= k < n ==> sections[k] == Summed(data, p, k, flags, hash)
  }

  lemma ReadMore(data: seq<Byte>, size: nat, p: Plan, n: nat, flags: Flags, hash: Digest, pos: nat, sections: seq<Section>, whole: seq<Byte>,
                 x: Section, input: seq<Byte>)
    requires Covers(size, p) && n < p.num && ReadSoFar(data, size, p, n, flags, hash, pos, sections, whole)
    requires StartPos(p, n) + SizeOf(p, n) <= |data| && input == data[StartPos(p, n)..StartPos(p, n) + SizeOf(p, n)]
    requires x == Summed(data, p, n, flags, hash)
    ensures ReadSoFar(data, size, p, n + 1, flags, hash, StartPos(p, n) + SizeOf(p, n), sections + [x], whole + input)
  {
    SectionsFollow(size, p);
  }

  // The loop over the sections, and the input of the file's checksums. For a file of several sections that ends
  // early the number recorded is that of the sections not read.
  method ReadSections(file: DataFile, size: nat, p: Plan, flags: Flags, hash: Digest)
    returns (sections: seq<Section>, whole: seq<Byte>, failed: bool, c: Cut)
    requires file.pos == 0 && Covers(size, p)
    modifies file`pos
    ensures failed <==> |file.data| < size
    ensures whole == file.data[..Min(size, |file.data|)] && |sections| == if failed then Reached(p, |file.data|) else p.num
    ensures forall i :: 0 <= i < |sections| ==> sections[i] == Summed(file.data, p, i, flags, hash)
    ensures failed ==> c.num == Reached(p, |file.data|) <= p.num && c.size == |file.data|
    ensures failed ==> c.recorded == if p.num > 1 then p.num - Reached(p, |file.data|) else 1
    ensures failed ==> (c.recorded == c.num <==> p.num == 1 || p.num == 2 * Reached(p, |file.data|))
  {
    hide Summed, Reached;
    sections, whole, failed, c := [], [], false, Cut(0, 0, 0, 0, 0);
    SectionBounds(size, p, 0);
    for i := 0 to p.num
      invariant ReadSoFar(file.data, size, p, i, flags, hash, file.pos, sections, whole) && !failed
    {
      ghost var pos, before, done := file.pos, sections, whole;
      var x, input, left := ReadSection(file, size, p, i, flags, hash);
      sections, whole := sections + [x], whole + input;
      SectionBounds(size, p, i);
      if left != 0 {
        c := CutShort(p, i, left);
        failed := true;
        ReachedIn(size, p, |file.data|, i);
        break;
      }
      ReadMore(file.data, size, p, i, flags, hash, pos, before, done, x, input);
    }
  }

  lemma SectionBounds(size: nat, p: Plan, i: nat)
    requires Covers(size, p) && i < p.num
    ensures 0 < p.norm && 0 < p.last && 0 < SizeOf(p, i) && StartPos(p, 0) == 0
    ensures EndPos(p, i) + 1 == StartPos(p, i) + SizeOf(p, i) <= size
  {
    SectionsFollow(size, p);
  }

  // The loop over the extracts of a file, or of a section starting at `base`
  method TakeExtracts(file: DataFile, base: nat, size: nat) returns (es: seq<Extract>, failed: bool)
    requires 0 < size && base + size <= |file.data|
    modifies file`pos
    ensures !failed && es == ExtractsOf(file.data, base, size)
  {
    es, failed := [], false;
    var s := ChooseExtracts(size);
    for i := 0 to s.num
      invariant |es| == i && !failed && forall k :: 0 <= k < i ==> es[k] == ExtractAt(file.data, base, size, k)
    {
      SampleIsModest(size);
      ExtractsApart(size, s, i, i);
      var pos := base + i * (size / s.num);
      file.pos := pos;
      var bytes := file.Read(s.len);
      if |bytes| != s.len {
        failed := true;
        break;
      }
      es := es + [Extract(pos, bytes)];
    }
  }

  /** A section as recorded. */
  function RecordedSection(data: seq<Byte>, p: Plan, i: nat, flags: Flags, hash: Digest): Section
    requires Covers(|data|, p) && i < p.num
  {
    SectionsFollow(|data|, p);
    Summed(data, p, i, flags, hash).(extracts :=
      if flags.sectExtracts then ExtractsOf(data, StartPos(p, i), EndPos(p, i) + 1 - StartPos(p, i)) else [])
  }

  function RecordedSections(data: seq<Byte>, p: Plan, flags: Flags, hash: Digest): (r: seq<Section>)
    requires Covers(|data|, p)
    ensures |r| == p.num
  {
    seq(p.num, i requires 0 <= i < p.num => RecordedSection(data, p, i, flags, hash))
  }

  /** All that is recorded of a file. */
  function Recorded(data: seq<Byte>, p: Plan, flags: Flags, hash: Digest): FileData
    requires Covers(|data|, p)
  {
    FileData(|data|, SumsOf(hash, flags.fileSums, data), if flags.fileExtracts then ExtractsOf(data, 0, |data|) else [],
             p.norm, p.last, RecordedSections(data, p, flags, hash))
  }

  /** A section of the memory pool as it is handed out. */
  function Wiped(): Section {
    Section(0, 0, [Unused(), Unused(), Unused()], [])
  }

  /** The sections recorded of a file that ended early: as many as were not read, from the first on. */
  function ShortSections(data: seq<Byte>, size: nat, p: Plan, flags: Flags, hash: Digest): (r: seq<Section>)
    requires Covers(size, p) && |data| < size
  {
    ReachedBound(size, p, |data|);
    seq(if p.num > 1 then p.num - Reached(p, |data|) else 1,
        i requires 0 <= i => ShortSection(data, p, i, flags, hash))
  }

  function ShortSection(data: seq<Byte>, p: Plan, i: nat, flags: Flags, hash: Digest): Section
    requires 0 < p.norm && 0 < p.last
  {
    if i < Reached(p, |data|) then Summed(data, p, i, flags, hash) else Wiped()
  }

  /** What is recorded of a file that ended early: the size that was read, the section sizes of the plan, no extracts. */
  function RecordedShort(data: seq<Byte>, size: nat, p: Plan, flags: Flags, hash: Digest): FileData
    requires Covers(size, p) && |data| < size
  {
    FileData(|data|, SumsOf(hash, flags.fileSums, data), [], p.norm, p.last, ShortSections(data, size, p, flags, hash))
  }

  /** All that is recorded of a file whose size was `size` when it was opened. */
  function RecordedOf(data: seq<Byte>, size: nat, p: Plan, flags: Flags, hash: Digest): FileData
    requires Covers(size, p)
  {
    if |data| < size then RecordedShort(data, size, p, flags, hash) else Recorded(data[..size], p, flags, hash)
  }

  // The extracts of one section
  method SectionExtract(file: DataFile, size: nat, p: Plan, i: nat, flags: Flags, x: Section, ghost hash: Digest) returns (y: Section)
    requires Covers(size, p) && size <= |file.data| && i < p.num && flags.sectExtracts && x == Summed(file.data, p, i, flags, hash)
    modifies file`pos
    ensures y == RecordedSection(file.data[..size], p, i, flags, hash)
  {
    hide Summed, ExtractsOf, RecordedSection, Covers;
    var start, want := i * p.norm, if i < p.num - 1 then p.norm else p.last;
    SectionBounds(size, p, i);
    var es, failed := TakeExtracts(file, start, want);
    WithExtracts(file.data, size, p, i, flags, hash);
    y := x.(extracts := es);
  }

  lemma WithExtracts(data: seq<Byte>, size: nat, p: Plan, i: nat, flags: Flags, hash: Digest)
    requires Covers(size, p) && size <= |data| && i < p.num && flags.sectExtracts
    ensures 0 < SizeOf(p, i) && StartPos(p, i) + SizeOf(p, i) <= |data|
    ensures RecordedSection(data[..size], p, i, flags, hash)
         == Summed(data, p, i, flags, hash).(extracts := ExtractsOf(data, StartPos(p, i), SizeOf(p, i)))
  {
    hide ExtractsOf, Summed;
    SectionBounds(size, p, i);
    SameSummed(data, size, p, i, flags, hash);
    SameExtracts(data, size, StartPos(p, i), SizeOf(p, i));
  }

  /** What lies past the size that was first seen plays no part. */
  lemma SameSummed(data: seq<Byte>, size: nat, p: Plan, i: nat, flags: Flags, hash: Digest)
    requires Covers(size, p) && size <= |data| && i < p.num
    ensures Summed(data, p, i, flags, hash) == Summed(data[..size], p, i, flags, hash)
  {
    SectionBounds(size, p, i);
    assert SectionBytes(data, p, i) == SectionBytes(data[..size], p, i);
  }

  lemma SameExtracts(data: seq<Byte>, size: nat, base: nat, n: nat)
    requires 0 < n && base + n <= size <= |data|
    ensures ExtractsOf(data, base, n) == ExtractsOf(data[..size], base, n)
  {
    forall i | 0 <= i < SampleFor(n).num ensures ExtractAt(data, base, n, i) == ExtractAt(data[..size], base, n, i) {
      SampleIsModest(n);
      ExtractsApart(n, SampleFor(n), i, i);
    }
  }

  // The extracts of every section
  method SectionExtracts(file: DataFile, size: nat, p: Plan, flags: Flags, summed: seq<Section>, ghost hash: Digest) returns (sections: seq<Section>)
    requires Covers(size, p) && size <= |file.data| && |summed| == p.num && flags.sectExtracts
    requires forall i :: 0 <= i < p.num ==> summed[i] == Summed(file.data, p, i, flags, hash)
    modifies file`pos
    ensures sections == RecordedSections(file.data[..size], p, flags, hash)
  {
    hide Summed, RecordedSection;
    sections := [];
    for i := 0 to p.num
      invariant |sections| == i && forall k :: 0 <= k < i ==> sections[k] == RecordedSection(file.data[..size], p, k, flags, hash)
    {
      var y := SectionExtract(file, size, p, i, flags, summed[i], hash);
      sections := sections + [y];
    }
  }

  lemma NoSectionExtracts(data: seq<Byte>, size: nat, p: Plan, flags: Flags, hash: Digest, summed: seq<Section>)
    requires Covers(size, p) && size <= |data| && |summed| == p.num && !flags.sectExtracts
    requires forall i :: 0 <= i < p.num ==> summed[i] == Summed(data, p, i, flags, hash)
    ensures summed == RecordedSections(data[..size], p, flags, hash)
  {
    hide Summed, RecordedSection;
    forall i | 0 <= i < p.num ensures summed[i] == RecordedSection(data[..size], p, i, flags, hash) {
      SameSummed(data, size, p, i, flags, hash);
      NoExtracts(data[..size], p, i, flags, hash);
    }
  }

  lemma NoExtracts(data: seq<Byte>, p: Plan, i: nat, flags: Flags, hash: Digest)
    requires Covers(|data|, p) && i < p.num && !flags.sectExtracts
    ensures RecordedSection(data, p, i, flags, hash) == Summed(data, p, i, flags, hash)
  {
    hide SumsOf, SectionBytes;
    assert Summed(data, p, i, flags, hash).extracts == [];
  }

  // ---------------------------------------------------------------------
  // What the record says of the file

  /** The slot of each wanted kind holds that kind's digest of the bytes, the others are unused. */
  predicate Digested(slots: seq<Checksum>, kinds: set<nat>, hash: Digest, input: seq<Byte>) {
    |slots| == 3 && forall k :: 1 <= k <= 3 ==> slots[k - 1] == if k in kinds then Checksum(k, hash(k, input)) else Checksum(0, [])
  }

  lemma SumsDigested(hash: Digest, kinds: set<nat>, input: seq<Byte>)
    ensures Digested(SumsOf(hash, kinds, input), kinds, hash, input)
  {
  }

  /** The extracts are bytes of the file, as many and as long as they should be, evenly spaced from `from` on and before `to`. */
  predicate Quotes(es: seq<Extract>, data: seq<Byte>, from: nat, to: nat) {
    from < to <= |data| && |es| == SampleFor(to - from).num
    && forall i :: 0 <= i < |es| ==>
      es[i].position == from + i * ((to - from) / |es|) && |es[i].bytes| == SampleFor(to - from).len && es[i].position + |es[i].bytes| <= to
      && es[i].bytes == data[es[i].position..es[i].position + |es[i].bytes|]
  }

  lemma ExtractsQuote(data: seq<Byte>, base: nat, size: nat)
    requires 0 < size && base + size <= |data|
    ensures Quotes(ExtractsOf(data, base, size), data, base, base + size)
  {
    var es, s := ExtractsOf(data, base, size), SampleFor(size);
    SampleIsModest(size);
    forall i | 0 <= i < |es|
      ensures es[i].position == base + i * (size / |es|) && |es[i].bytes| == s.len && es[i].position + |es[i].bytes| <= base + size
      ensures es[i].bytes == data[es[i].position..es[i].position + |es[i].bytes|]
    {
      ExtractsApart(size, s, i, i);
    }
  }

  /** A section's bounds, the digests of the bytes between them, and its extracts. */
  predicate SectionTells(x: Section, data: seq<Byte>, flags: Flags, hash: Digest) {
    x.start <= x.end < |data| && Digested(x.checksums, flags.sectSums, hash, data[x.start..x.end + 1])
    && if flags.sectExtracts then Quotes(x.extracts, data, x.start, x.end + 1) else x.extracts == []
  }

  /** What is recorded of a file that was read to the end: `data` are its bytes. */
  predicate Tells(d: FileData, data: seq<Byte>, flags: Flags, hash: Digest) {
    d.size == |data| && Digested(d.checksums, flags.fileSums, hash, data)
    && (if flags.fileExtracts then Quotes(d.extracts, data, 0, |data|) else d.extracts == [])
    && d.sections != [] && d.sections[0].start == 0 && d.sections[|d.sections| - 1].end == |data| - 1
    && (forall i :: 0 < i < |d.sections| ==> d.sections[i].start == d.sections[i - 1].end + 1)
    && forall i :: 0 <= i < |d.sections| ==> SectionTells(d.sections[i], data, flags, hash)
  }

  lemma SectionTold(data: seq<Byte>, p: Plan, i: nat, flags: Flags, hash: Digest)
    requires Covers(|data|, p) && i < p.num
    ensures SectionTells(RecordedSection(data, p, i, flags, hash), data, flags, hash)
    ensures RecordedSection(data, p, i, flags, hash).start == StartPos(p, i) && RecordedSection(data, p, i, flags, hash).end == EndPos(p, i)
  {
    hide SumsOf, ExtractsOf;
    SectionBounds(|data|, p, i);
    assert SectionBytes(data, p, i) == data[StartPos(p, i)..EndPos(p, i) + 1];
    SumsDigested(hash, flags.sectSums, SectionBytes(data, p, i));
    ExtractsQuote(data, StartPos(p, i), SizeOf(p, i));
  }

  lemma SectionsTold(data: seq<Byte>, p: Plan, flags: Flags, hash: Digest)
    requires Covers(|data|, p)
    ensures forall i :: 0 <= i < p.num ==> var x := RecordedSections(data, p, flags, hash)[i];
      SectionTells(x, data, flags, hash) && x.start == StartPos(p, i) && x.end == EndPos(p, i)
  {
    hide RecordedSection, SectionTells, StartPos, EndPos;
    forall i | 0 <= i < p.num
      ensures var x := RecordedSections(data, p, flags, hash)[i];
        SectionTells(x, data, flags, hash) && x.start == StartPos(p, i) && x.end == EndPos(p, i)
    {
      SectionTold(data, p, i, flags, hash);
    }
  }

  lemma SomeBytes(size: nat, p: Plan)
    requires Covers(size, p)
    ensures 0 < size && 0 < p.num
  {
    SectionBounds(size, p, 0);
  }

  lemma FileTold(data: seq<Byte>, p: Plan, flags: Flags, hash: Digest)
    requires Covers(|data|, p)
    ensures Tells(Recorded(data, p, flags, hash), data, flags, hash)
  {
    hide SumsOf, ExtractsOf, RecordedSections, SectionTells, StartPos, EndPos, Quotes, Digested, Covers;
    SomeBytes(|data|, p);
    SumsDigested(hash, flags.fileSums, data);
    ExtractsQuote(data, 0, |data|);
    SectionsFollow(|data|, p);
    SectionsTold(data, p, flags, hash);
  }

  /** A section of a file that ended early: what was read of it, or nothing if it was not reached. */
  predicate ShortSectionTells(x: Section, i: nat, norm: nat, data: seq<Byte>, flags: Flags, hash: Digest)
    requires 0 < norm
  {
    x.extracts == []
    && if i <= |data| / norm
       then x.start == i * norm <= x.end < x.start + norm
            && Digested(x.checksums, flags.sectSums, hash, data[Min(x.start, |data|)..Min(x.end + 1, |data|)])
       else x.start == 0 == x.end && Digested(x.checksums, {}, hash, [])
  }

  /** What is recorded of a file that ended early: `data` are the bytes it had. */
  predicate ShortTells(d: FileData, data: seq<Byte>, flags: Flags, hash: Digest) {
    0 < d.norm && d.size == |data| && Digested(d.checksums, flags.fileSums, hash, data) && d.extracts == []
    && forall i :: 0 <= i < |d.sections| ==> ShortSectionTells(d.sections[i], i, d.norm, data, flags, hash)
  }

  lemma ShortTold(data: seq<Byte>, size: nat, p: Plan, flags: Flags, hash: Digest)
    requires Covers(size, p) && |data| < size
    ensures ShortTells(RecordedShort(data, size, p, flags, hash), data, flags, hash)
  {
    hide SumsOf;
    SumsDigested(hash, flags.fileSums, data);
    ReachedBound(size, p, |data|);
    var d := RecordedShort(data, size, p, flags, hash);
    forall i | 0 <= i < |d.sections| ensures ShortSectionTells(d.sections[i], i, d.norm, data, flags, hash) {
      assert d.sections[i] == ShortSection(data, p, i, flags, hash);
      if i < Reached(p, |data|) {
        SectionBounds(size, p, i);
      }
      SumsDigested(hash, flags.sectSums, SectionBytes(data, p, i));
    }
  }

  lemma AllTold(data: seq<Byte>, size: nat, p: Plan, flags: Flags, hash: Digest)
    requires Covers(size, p)
    ensures var d := RecordedOf(data, size, p, flags, hash); if |data| < size then ShortTells(d, data, flags, hash) else Tells(d, data[..size], flags, hash)
  {
    hide Tells, ShortTells;
    if |data| < size {
      ShortTold(data, size, p, flags, hash);
    } else {
      FileTold(data[..size], p, flags, hash);
    }
  }

  // fingerprint_file, with sections and the file size wanted; `size` is what `stat` told of the file
  method FingerprintFile(file: DataFile, size: nat, flags: Flags, hash: Digest) returns (ret: int, d: Option<FileData>)
    requires file.pos == 0
    modifies file`pos
    ensures ret == if size > FILE_SIZE_MAX then FS_FILE_TOO_LARGE else if size == Classes()[CLASS_NUM - 1] then LOGIC_ERROR else OK
    ensures d.Some? <==> ret == OK && size != 0
    ensures d.Some? ==> exists p :: Chosen(size, p) && d.value == RecordedOf(file.data, size, p, flags, hash)
    ensures d.Some? && size <= |file.data| ==> Tells(d.value, file.data[..size], flags, hash)
    ensures d.Some? && size > |file.data| ==> ShortTells(d.value, file.data, flags, hash)
  {
    if size == 0 {
      return OK, None;
    }
    if size > FILE_SIZE_MAX {
      return FS_FILE_TOO_LARGE, None;
    }
    var p;
    ret, p := ChooseSections(size);
    if ret != OK {
      return ret, None;
    }
    var data := RecordFile(file, size, p, flags, hash);
    AllTold(file.data, size, p, flags, hash);
    d := Some(data);
  }

  method RecordFile(file: DataFile, size: nat, p: Plan, flags: Flags, hash: Digest) returns (d: FileData)
    requires file.pos == 0 && Covers(size, p) && 0 < size
    modifies file`pos
    ensures d == RecordedOf(file.data, size, p, flags, hash)
  {
    hide Summed, ExtractsOf, RecordedSection;
    var sections, whole, failed, c := ReadSections(file, size, p, flags, hash);
    if failed {
      sections := sections + seq(p.num - c.num, _ => Wiped());
      d := FileData(c.size, SumsOf(hash, flags.fileSums, whole), [], p.norm, p.last, sections[..c.recorded]);
      assert whole == file.data;
      return;
    }
    var es: seq<Extract> := [];
    if flags.fileExtracts {
      es, failed := TakeExtracts(file, 0, size);
      SameExtracts(file.data, size, 0, size);
    }
    if flags.sectExtracts {
      sections := SectionExtracts(file, size, p, flags, sections, hash);
    } else {
      NoSectionExtracts(file.data, size, p, flags, hash, sections);
    }
    d := FileData(size, SumsOf(hash, flags.fileSums, whole), es, p.norm, p.last, sections);
  }

  // ---------------------------------------------------------------------
  // What is recorded can be saved and loaded

  lemma ExtractsLoadable(data: seq<Byte>, base: nat, size: nat)
    requires 0 < size && base + size <= |data|
    ensures LoadableExtracts(ExtractsOf(data, base, size), |data|, true) && LoadableExtracts(ExtractsOf(data, base, size), |data|, false)
  {
    var es := ExtractsOf(data, base, size);
    SampleIsModest(size);
    forall i | 0 <= i < |es| ensures LoadableExtract(es[i], |data|, true) && LoadableExtract(es[i], |data|, false) {
      ExtractsApart(size, SampleFor(size), i, i);
    }
  }

  lemma SectionLoadable(data: seq<Byte>, p: Plan, i: nat, flags: Flags, hash: Digest)
    requires Covers(|data|, p) && i < p.num && |data| <= FILE_SIZE_MAX && FitsSlots(hash)
    ensures LoadableSection(RecordedSection(data, p, i, flags, hash), |data|)
  {
    EightBytes();
    SectionsFollow(|data|, p);
    SumsStorable(hash, flags.sectSums, SectionBytes(data, p, i));
    ExtractsLoadable(data, StartPos(p, i), EndPos(p, i) + 1 - StartPos(p, i));
  }

  lemma PlanSizes(size: nat, p: Plan)
    requires Chosen(size, p)
    ensures p.num <= 100 && SectionSizesOk(p.num, p.norm, p.last, size)
  {
    if size < SECT_SIZE_SMALL {
    } else {
      SuitedIsFew(size, p.num);
    }
  }

  /** What is recorded of a file meets the loader's tests. */
  lemma RecordedIsLoadable(data: seq<Byte>, p: Plan, flags: Flags, hash: Digest)
    requires Chosen(|data|, p) && |data| <= FILE_SIZE_MAX && FitsSlots(hash)
    ensures LoadableFileData(Recorded(data, p, flags, hash))
  {
    hide RecordedSection, ExtractsOf;
    EightBytes();
    PlanSizes(|data|, p);
    SumsStorable(hash, flags.fileSums, data);
    ExtractsLoadable(data, 0, |data|);
    NoExtractsLoadable(|data|);
    var d := Recorded(data, p, flags, hash);
    forall i | 0 <= i < |d.sections| ensures LoadableSection(d.sections[i], d.size) {
      SectionLoadable(data, p, i, flags, hash);
    }
  }

  lemma NoExtractsLoadable(size: nat)
    ensures LoadableExtracts([], size, true)
  {
  }

  // ---------------------------------------------------------------------
  // A file that ended early

  /** What verify_entry demands of the sections of a file that has room for sections. */
  predicate SectionsVerify(d: FileData) {
    d.norm <= d.size && d.last <= d.norm && (|d.sections| == 1 ==> d.last == d.norm) && (d.norm == 0 ==> d.last == 0)
    && (forall i :: 0 <= i < |d.sections| ==>
          d.sections[i].start < d.sections[i].end && d.sections[i].start < d.size && d.sections[i].end < d.size)
    && (d.norm > 0 ==> forall i :: 0 < i < |d.sections| ==> d.sections[i].start > d.sections[i - 1].end)
  }

  /** What is recorded of a file that keeps its size passes exactly when the file has two bytes or more. */
  lemma RecordedVerifiesIff(data: seq<Byte>, p: Plan, flags: Flags, hash: Digest)
    requires Chosen(|data|, p)
    ensures SectionsVerify(Recorded(data, p, flags, hash)) <==> 2 <= |data|
  {
    hide SumsOf, ExtractsOf, SectionBytes;
    var d := Recorded(data, p, flags, hash);
    forall i | 0 <= i < p.num ensures d.sections[i].start == StartPos(p, i) && d.sections[i].end == EndPos(p, i) {
      SectionBounds(|data|, p, i);
    }
    if SectionsVerify(d) {
      assert d.sections[p.num - 1].start < d.sections[p.num - 1].end;
      SectionBounds(|data|, p, p.num - 1);
    } else {
      assert VerifySections(|data|, p) == (2 <= |data|);
    }
  }

  lemma ShortSectionAt(data: seq<Byte>, size: nat, p: Plan, flags: Flags, hash: Digest, i: nat)
    requires Covers(size, p) && |data| < size && i < |ShortSections(data, size, p, flags, hash)|
    ensures var x := ShortSections(data, size, p, flags, hash)[i];
            if i < Reached(p, |data|) then i < p.num && x.start == StartPos(p, i) && x.end == EndPos(p, i) else x == Wiped()
  {
    ReachedBound(size, p, |data|);
    assert ShortSections(data, size, p, flags, hash)[i] == ShortSection(data, p, i, flags, hash);
  }

  lemma PlanIsWide(size: nat, p: Plan)
    requires Chosen(size, p) && 1 < p.num
    ensures 2 <= p.last <= p.norm
  {
    if size >= SECT_SIZE_SMALL {
      assert 2 <= size;
      VerifiedIff(size, p);
    }
  }

  /** A section before the one in which the file ended. */
  lemma BeforeTheEnd(size: nat, p: Plan, have: nat, i: nat)
    requires Covers(size, p) && have < size && i + 1 < Reached(p, have)
    ensures i + 1 < p.num && EndPos(p, i) < have && EndPos(p, i) + 1 == StartPos(p, i + 1)
  {
    hide Reached, StartPos;
    ReachedBound(size, p, have);
    SectionsFollow(size, p);
    StartsGrow(p, i + 1, Reached(p, have) - 1);
  }

  /** Of a file that ended early verify_entry accepts the sections exactly when there was more than one, the first
      was read, more than half of them were, and one left over has the size of the others. */
  lemma ShortVerifiesIff(data: seq<Byte>, size: nat, p: Plan, flags: Flags, hash: Digest)
    requires Chosen(size, p) && |data| < size
    ensures SectionsVerify(RecordedShort(data, size, p, flags, hash)) <==>
              1 < p.num && p.norm <= |data| && p.num < 2 * (|data| / p.norm + 1) && (p.num == |data| / p.norm + 2 ==> p.last == p.norm)
  {
    hide SumsOf, Summed, Reached;
    var d, n := RecordedShort(data, size, p, flags, hash), Reached(p, |data|);
    ReachedBound(size, p, |data|);
    assert n == |data| / p.norm + 1 by { ReachedIs(p, |data|); }
    if p.num == 1 {
      assert p.norm == size;
    } else {
      PlanIsWide(size, p);
      if p.num >= 2 * n {
        ShortSectionAt(data, size, p, flags, hash, n - 1);
        EndsWithin(size, p, |data|);
        assert d.sections[n - 1].end >= |data|;
      } else {
        forall i | 0 <= i < |d.sections|
          ensures d.sections[i].start == StartPos(p, i) && d.sections[i].end == EndPos(p, i) == StartPos(p, i) + p.norm - 1 < |data|
          ensures i > 0 ==> StartPos(p, i) == EndPos(p, i - 1) + 1
        {
          ShortSectionAt(data, size, p, flags, hash, i);
          BeforeTheEnd(size, p, |data|, i);
          if i > 0 {
            BeforeTheEnd(size, p, |data|, i - 1);
          }
        }
      }
    }
  }

  lemma ReachedIs(p: Plan, have: nat)
    requires 0 < p.norm
    ensures Reached(p, have) == have / p.norm + 1
  {
  }

  /** The section in which the file ended goes on past it. */
  lemma EndsWithin(size: nat, p: Plan, have: nat)
    requires Covers(size, p) && have < size
    ensures Reached(p, have) <= p.num && have <= EndPos(p, Reached(p, have) - 1)
  {
    Tiling(size, p, have);
    var i: nat :| InSection(p, i, have);
    ReachedIn(size, p, have, i);
  }

  /** It can be loaded again exactly when there was more than one section, the first was read, the last was not
      begun, and one left over has the size of the others. */
  lemma ShortLoadsIff(data: seq<Byte>, size: nat, p: Plan, flags: Flags, hash: Digest, rest: seq<Byte>)
    requires Chosen(size, p) && |data| < size <= FILE_SIZE_MAX && FitsSlots(hash)
    ensures ParseFileData(EncodeFileData(RecordedShort(data, size, p, flags, hash), rest))
         == if 1 < p.num && p.norm <= |data| && |data| / p.norm + 1 < p.num && (p.num == |data| / p.norm + 2 ==> p.last == p.norm)
            then Got(ReloadedFileData(RecordedShort(data, size, p, flags, hash)), rest) else Fail(FILE_BROKEN)
  {
    hide SumsOf, ParseFileData, EncodeFileData, ReloadedFileData, StorableChecksums, Reached, Summed;
    var d := RecordedShort(data, size, p, flags, hash);
    EightBytes();
    PlanSizes(size, p);
    ReachedBound(size, p, |data|);
    ReachedIs(p, |data|);
    SumsStorable(hash, flags.fileSums, data);
    forall i | 0 <= i < |d.sections| ensures LoadableSection(d.sections[i], d.size) {
      ShortLoadable(data, size, p, flags, hash, i);
    }
    if p.num == 1 {
      assert p.norm == size;
    }
    LoadsIffSizesOk(d, rest);
  }

  lemma ShortLoadable(data: seq<Byte>, size: nat, p: Plan, flags: Flags, hash: Digest, i: nat)
    requires Covers(size, p) && |data| < size <= FILE_SIZE_MAX && FitsSlots(hash) && i < |ShortSections(data, size, p, flags, hash)|
    ensures LoadableSection(ShortSections(data, size, p, flags, hash)[i], |data|)
  {
    EightBytes();
    ReachedBound(size, p, |data|);
    assert ShortSections(data, size, p, flags, hash)[i] == ShortSection(data, p, i, flags, hash);
    if i < Reached(p, |data|) {
      SectionBounds(size, p, i);
      SumsStorable(hash, flags.sectSums, SectionBytes(data, p, i));
    }
  }

  /** A file that ends in the last of several sections passes verify_entry, is saved, and makes the database file
      one that is refused as broken. */
  lemma EndInLastSection(data: seq<Byte>, size: nat, p: Plan, flags: Flags, hash: Digest, rest: seq<Byte>)
    requires Chosen(size, p) && |data| < size <= FILE_SIZE_MAX && FitsSlots(hash)
    ensures var d := RecordedShort(data, size, p, flags, hash);
            SectionsVerify(d) && ParseFileData(EncodeFileData(d, rest)) == Fail(FILE_BROKEN) <==> 1 < p.num && StartPos(p, p.num - 1) <= |data|
  {
    hide ParseFileData, EncodeFileData, RecordedShort, SectionsVerify;
    ShortVerifiesIff(data, size, p, flags, hash);
    ShortLoadsIff(data, size, p, flags, hash, rest);
    ReachedBound(size, p, |data|);
    QuotientAtLeast(|data|, p.norm, p.num - 1);
    if 1 < p.num {
      QuotientAtLeast(|data|, p.norm, 1);
    }
  }

  /** The kinds wanted of the sections are the first ones. */
  predicate FirstKinds(kinds: set<nat>) {
    (2 in kinds ==> 1 in kinds) && (3 in kinds ==> 2 in kinds)
  }

  /** What is recorded of a file comes back from the database file unchanged if the checksums of sections are of
      the first kinds. */
  lemma RecordedSurvives(data: seq<Byte>, p: Plan, flags: Flags, hash: Digest, rest: seq<Byte>)
    requires Chosen(|data|, p) && |data| <= FILE_SIZE_MAX && FitsSlots(hash) && FirstKinds(flags.sectSums)
    ensures var d := Recorded(data, p, flags, hash); ParseFileData(EncodeFileData(d, rest)) == Got(d, rest)
  {
    hide RecordedSection, LoadableFileData, EncodeFileData, ParseFileData, ReloadedFileData;
    var d := Recorded(data, p, flags, hash);
    RecordedIsLoadable(data, p, flags, hash);
    FileDataBack(d, rest);
    forall i | 0 <= i < |d.sections| ensures Compact(d.sections[i].checksums) {
      SectionCompact(data, p, i, flags, hash);
    }
    CompactFileData(d);
  }

  ghost predicate NeverZero(hash: Digest) {
    forall kind, b :: Nonzero(Checksum(kind, hash(kind, b)))
  }

  /** With digests that are never all zero, exactly then. */
  lemma RecordedSurvivesIff(data: seq<Byte>, p: Plan, flags: Flags, hash: Digest, rest: seq<Byte>)
    requires Chosen(|data|, p) && |data| <= FILE_SIZE_MAX && FitsSlots(hash) && NeverZero(hash)
    ensures var d := Recorded(data, p, flags, hash); ParseFileData(EncodeFileData(d, rest)) == Got(d, rest) <==> FirstKinds(flags.sectSums)
  {
    hide RecordedSection, LoadableFileData, EncodeFileData, ParseFileData, ReloadedSection;
    if FirstKinds(flags.sectSums) {
      RecordedSurvives(data, p, flags, hash, rest);
    } else {
      var d := Recorded(data, p, flags, hash);
      RecordedIsLoadable(data, p, flags, hash);
      FileDataBack(d, rest);
      SectionLost(data, p, flags, hash);
      assert ReloadedFileData(d).sections[0] != d.sections[0];
    }
  }

  lemma SectionLost(data: seq<Byte>, p: Plan, flags: Flags, hash: Digest)
    requires Covers(|data|, p) && FitsSlots(hash) && NeverZero(hash) && !FirstKinds(flags.sectSums)
    ensures ReloadedSection(RecordedSection(data, p, 0, flags, hash)) != RecordedSection(data, p, 0, flags, hash)
  {
    var sums := SumsOf(hash, flags.sectSums, SectionBytes(data, p, 0));
    SumsStorable(hash, flags.sectSums, SectionBytes(data, p, 0));
    CompactIff(hash, flags.sectSums, SectionBytes(data, p, 0));
    SurvivesIffCompact(sums);
    assert RecordedSection(data, p, 0, flags, hash).checksums == sums;
  }

  lemma CompactIff(hash: Digest, kinds: set<nat>, input: seq<Byte>)
    ensures Compact(SumsOf(hash, kinds, input)) <==> FirstKinds(kinds)
  {
    var slots := SumsOf(hash, kinds, input);
    assert (slots[0].kind == 0) == (1 !in kinds) && (slots[1].kind == 0) == (2 !in kinds) && (slots[2].kind == 0) == (3 !in kinds);
  }

  lemma SectionCompact(data: seq<Byte>, p: Plan, i: nat, flags: Flags, hash: Digest)
    requires Covers(|data|, p) && i < p.num && FirstKinds(flags.sectSums)
    ensures Compact(RecordedSection(data, p, i, flags, hash).checksums)
  {
  }
}
