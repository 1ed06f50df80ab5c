/** `load_file` as a whole, and the round trip of a database file. */
module LoadDatabase {
  import opened Codes
  import opened BufferedFile
  import opened Numbers
  import opened Records
  import opened Entries
  import opened TreeLoad
  import opened LoadFile
  import opened SaveFile
  import opened LoadTree

  /** Markers, version and the two counts: number of branches and number of entries. */
  function ParseHeader(s: seq<Byte>): Parsed<(nat, nat)> {
    var (head, s) :- TakeStr(s, 15);
    if head != Marker() then Fail(FILE_BROKEN) else
    var (version, s) :- TakeStr(s, 5);
    if version != Version() then Fail(FILE_NOSUPPORT) else
    var (branches, s) :- TakeNum(s, 8);
    var (n, s) :- TakeNum(s, 8);
    Got((branches, n), s)
  }

  /** The bytes in front decide between a broken file, one of another version, and one that is read on. */
  lemma HeaderOutcome(s: seq<Byte>)
    requires |s| >= 36
    ensures ParseHeader(s) == if exists i :: 0 <= i < 15 && s[i] != i + 1 then Fail(FILE_BROKEN)
                              else if s[15..20] != [48, 48, 46, 48, 49] then Fail(FILE_NOSUPPORT)
                              else Got((Number(s[20..28]), Number(s[28..36])), s[36..])
  {
    hide Number;
    assert s[..15] == Marker() <==> forall i :: 0 <= i < 15 ==> s[..15][i] == i + 1;
    assert s[15..][..5] == s[15..20] && s[15..][5..] == s[20..];
    assert s[20..][..8] == s[20..28] && s[20..][8..] == s[28..];
    assert s[28..][..8] == s[28..36] && s[28..][8..] == s[36..];
  }

  function ParseTail(s: seq<Byte>): Parsed<()> {
    var (tail, s) :- TakeStr(s, 15);
    if tail != Marker() then Fail(FILE_BROKEN) else Got((), s)
  }

  /** Everything before the tail marker. */
  function ParseContent(s: seq<Byte>, verify: Record -> bool): Parsed<(seq<Record>, Loaded)> {
    var (counts, s) :- ParseHeader(s);
    ParseEntries(s, counts.1, Start(), verify)
  }

  /** A database file: its records and their tree. */
  function ParseFile(s: seq<Byte>, verify: Record -> bool): Parsed<(seq<Record>, Loaded)> {
    var (all, s) :- ParseContent(s, verify);
    var (_, s) :- ParseTail(s);
    Got(all, s)
  }

  method LoadHeader(r: Reader) returns (ret: int, counts: (nat, nat))
    requires Ready(r)
    modifies r, r.file`pos, r.buf, r.backup
    ensures Outcome(r, ret, counts, ParseHeader(old(r.Rest())))
  {
    counts := (0, 0);
    var head, version, branches, n;
    ret, head := GetStr(r, 15);
    if ret != OK { return; }
    var good := IsMarker(head);
    if !good {
      return FILE_BROKEN, counts;
    }
    ret, version := GetStr(r, 5);
    if ret != OK { return; }
    if version != Version() {
      return FILE_NOSUPPORT, counts;
    }
    ret, branches := GetNum(r, 8);
    if ret != OK { return; }
    ret, n := GetNum(r, 8);
    if ret != OK { return; }
    counts := (branches, n);
  }

  // The loop over head_tail
  method IsMarker(b: seq<Byte>) returns (good: bool)
    requires |b| == 15
    ensures good <==> b == Marker()
  {
    for i := 1 to 16
      invariant forall k :: 0 <= k < i - 1 ==> b[k] == k + 1
    {
      if b[i - 1] != i {
        return false;
      }
    }
    good := true;
  }

  method LoadTail(r: Reader) returns (ret: int)
    requires Ready(r)
    modifies r, r.file`pos, r.buf, r.backup
    ensures Outcome(r, ret, (), ParseTail(old(r.Rest())))
  {
    var tail;
    ret, tail := GetStr(r, 15);
    if ret != OK { return; }
    var good := IsMarker(tail);
    if !good {
      return FILE_BROKEN;
    }
  }

  /** What the end test lets through: nothing is left, or what is left fills the last buffer. */
  predicate EndAccepted(total: nat, left: nat) {
    left == 0 || (total % BUFFER_SIZE == 0 && left < BUFFER_SIZE)
  }

  // The tail marker and the test that the file ends after it
  method LoadEnd(r: Reader) returns (ret: int)
    requires Ready(r)
    modifies r, r.file`pos, r.buf, r.backup
    ensures match ParseTail(old(r.Rest()))
            case Fail(code) => ret != OK && SameCode(ret, code)
            case Got(_, rest) => ret == if EndAccepted(|r.file.data|, |rest|) then OK else FILE_BROKEN
  {
    RestFits(r);
    ret := LoadTail(r);
    if ret != OK { return; }
    EndTest(r, |r.file.data| - |r.Rest()|);
    var accepted := r.AtEnd();
    if !accepted {
      return FILE_BROKEN;
    }
  }

  method LoadContent(r: Reader, root: Entry, verify: Record -> bool)
    returns (ret: int, htab: map<Id, Entry>, ghost view: View, ghost all: (seq<Record>, Loaded))
    requires Ready(r) && root.child == [] && root.depth == 0
    modifies r, r.file`pos, r.buf, r.backup, root`child
    ensures Outcome(r, ret, all, ParseContent(old(r.Rest()), verify))
    ensures ret == OK ==> Rebuilt(root, htab, view, all.1, all.0)
  {
    htab, view, all := map[], map[], ([], Start());
    var counts;
    ret, counts := LoadHeader(r);
    if ret != OK { return; }
    ghost var st, es;
    ret, htab, view, st, es := LoadEntries(r, root, counts.1, verify);
    all := (es, st);
  }

  // load_file after opening the file, with an empty tree
  method LoadDatabaseFile(r: Reader, root: Entry, verify: Record -> bool)
    returns (ret: int, htab: map<Id, Entry>, ghost view: View)
    requires Ready(r) && root.child == [] && root.depth == 0
    modifies r, r.file`pos, r.buf, r.backup, root`child
    ensures match ParseFile(old(r.Rest()), verify)
            case Fail(code) => ret != OK && SameCode(ret, code)
            case Got(v, rest) =>
              (ret == if EndAccepted(|r.file.data|, |rest|) then OK else FILE_BROKEN) && (ret == OK ==> Rebuilt(root, htab, view, v.1, v.0))
  {
    hide ParseContent, Rebuilt;
    ghost var all;
    ret, htab, view, all := LoadContent(r, root, verify);
    if ret != OK { return; }
    ret := LoadEnd(r);
  }
}
