/**
 * Block addressing of TorrentStream.cpp: a byte range of the concatenated files, cut into
 * one segment per file. `int` casts keep 32 bits, as in the code; offsets and lengths are
 * otherwise unbounded.
 */
module TorrentStream {
  import opened MachineInt
  import opened Text

  newtype Byte = x: int | 0 <= x < 256

  type Path = seq<string>

  datatype Entry = Entry(path: Path, length: nat)

  /** A file tree; `Gone` is an entry that cannot be examined any more. */
  datatype Node = File(content: seq<Byte>) | Dir(items: Items) | Gone

  /** The entries of a directory, in the order the filesystem enumerates them. */
  datatype Items = End | Item(name: string, node: Node, rest: Items)

  function Child(items: Items, name: string): Option<Node> {
    match items
    case End => None
    case Item(n, node, rest) => if n == name then Some(node) else Child(rest, name)
  }

  function At(root: Node, p: Path): Option<Node>
    decreases |p|
  {
    if p == [] then Some(root)
    else if !root.Dir? then None
    else
      match Child(root.items, p[0])
      case None => None
      case Some(n) => At(n, p[1..])
  }

  /** `FileExists` then `OpenFile`. */
  function Open(root: Node, p: Path): Option<seq<Byte>> {
    match At(root, p)
    case Some(File(content)) => Some(content)
    case _ => None
  }

  // ----- The concatenation -----

  /** Where file `i` starts. */
  function Start(entries: seq<Entry>, i: nat): nat
    requires i <= |entries|
  {
    if i == 0 then 0 else Start(entries, i - 1) + entries[i - 1].length
  }

  function Total(entries: seq<Entry>): nat {
    Start(entries, |entries|)
  }

  /** The listed files exist with the listed lengths, or do not exist. */
  predicate Faithful(root: Node, entries: seq<Entry>) {
    forall i :: 0 <= i < |entries| ==>
      var f := Open(root, entries[i].path); f.Some? ==> |f.value| == entries[i].length
  }

  /** The bytes of one entry; a missing file stands for zeros of its length. */
  function Bytes(root: Node, e: Entry): (b: seq<Byte>)
    ensures var f := Open(root, e.path); f.Some? && |f.value| == e.length ==> b == f.value
    ensures |b| == e.length
  {
    var f := Open(root, e.path);
    if f.Some? && |f.value| == e.length then f.value else seq(e.length, _ => 0)
  }

  /** The first `i` files, one after the other. */
  function Content(root: Node, entries: seq<Entry>, i: nat): (c: seq<Byte>)
    requires i <= |entries|
    ensures |c| == Start(entries, i)
  {
    if i == 0 then [] else Content(root, entries, i - 1) + Bytes(root, entries[i - 1])
  }

  lemma {:induction false} StartGrows(entries: seq<Entry>, i: nat, j: nat)
    requires i <= j <= |entries|
    ensures Start(entries, i) <= Start(entries, j)
  {
    if i < j {
      StartGrows(entries, i, j - 1);
    }
  }

  /** A byte of file `i`, seen in the whole. */
  lemma {:induction false} ContentAt(root: Node, entries: seq<Entry>, i: nat, k: nat, n: nat)
    requires i < n <= |entries| && k < entries[i].length
    ensures Start(entries, i) + k < Start(entries, n)
    ensures Content(root, entries, n)[Start(entries, i) + k] == Bytes(root, entries[i])[k]
  {
    if n > i + 1 {
      ContentAt(root, entries, i, k, n - 1);
    }
  }

  // ----- Segments -----

  /** `fstart`, `flength` and `bstart` of the loop body. */
  datatype Segment = Segment(fstart: int, flength: int, bstart: int)

  /** Neither of the two tests that skip a file fires. */
  predicate Visited(offset: int, len: int, start: int, length: int) {
    var end := offset + len;
    !(offset < start && end < start) && !(offset > start + length && end > start + length)
  }

  /** A file is visited exactly when it touches the range, even if only end to end. */
  lemma VisitedTouches(offset: nat, len: nat, start: nat, length: nat)
    ensures Visited(offset, len, start, length) <==> start <= offset + len && offset <= start + length
  {
  }

  function SegmentOf(offset: int, len: int, start: int, length: int): Segment {
    var end := offset + len;
    var fstart := Max(0, offset - start);
    var fend := Min(end - start, length);
    Segment(fstart, ToInt32(fend - fstart), Max(0, ToInt32(start - offset)))
  }

  /** The same without the casts. */
  function WideSegment(offset: int, len: int, start: int, length: int): Segment {
    var fstart := Max(0, offset - start);
    Segment(fstart, Min(offset + len - start, length) - fstart, Max(0, start - offset))
  }

  /** What a caller must check so that the casts do no harm. */
  predicate CastsFit(offset: int, len: int, start: int, length: int) {
    WideSegment(offset, len, start, length).flength < 0x8000_0000
    && (if start >= offset then start - offset < 0x8000_0000
        else (offset - start) % 0x1_0000_0000 <= 0x8000_0000)
  }

  /** Without casts, a visited file's segment is in bounds of the file and of the buffer. */
  lemma WideInBounds(offset: nat, len: nat, start: nat, length: nat)
    requires Visited(offset, len, start, length)
    ensures var s := WideSegment(offset, len, start, length);
            0 <= s.fstart && 0 <= s.flength && s.fstart + s.flength <= length
            && 0 <= s.bstart && s.bstart + s.flength <= len
            && start + s.fstart == offset + s.bstart
  {
  }

  /** The code's segment is that one exactly when the casts fit. */
  lemma CastsExact(offset: nat, len: nat, start: nat, length: nat)
    requires Visited(offset, len, start, length)
    ensures SegmentOf(offset, len, start, length) == WideSegment(offset, len, start, length)
            <==> CastsFit(offset, len, start, length)
  {
    hide ToInt32;
    WideInBounds(offset, len, start, length);
    var s := WideSegment(offset, len, start, length);
    CastExact(s.flength);
    if start >= offset {
      CastExact(start - offset);
    } else {
      CastNegative(offset - start);
    }
  }

  lemma CastExact(x: nat)
    ensures ToInt32(x) == x <==> x < 0x8000_0000
    ensures ToInt32(x) < 0x8000_0000
  {
  }

  lemma CastNegative(d: nat)
    requires d > 0
    ensures ToInt32(-(d as int)) <= 0 <==> d % 0x1_0000_0000 <= 0x8000_0000
  {
    var q, r := d / 0x1_0000_0000, d % 0x1_0000_0000;
    if r <= 0x8000_0000 {
      DivUnique(0x8000_0000 - d, 0x1_0000_0000, -q, 0x8000_0000 - r);
    } else {
      DivUnique(0x8000_0000 - d, 0x1_0000_0000, -q - 1, 0x1_8000_0000 - r);
    }
  }

  /** Reading one byte just past two gibibytes into a file: the code would write far outside its one-byte buffer. */
  lemma CastFailure()
    ensures var offset, length := 0x8000_0001, 0x1_0000_0000;
            Visited(offset, 1, 0, length) && SegmentOf(offset, 1, 0, length) == Segment(offset, 1, 0x7FFF_FFFF)
            && WideSegment(offset, 1, 0, length) == Segment(offset, 1, 0)
  {
  }

  /** Files of at most two gibibytes and blocks below that never hit the casts. */
  lemma SmallFilesFit(offset: nat, len: nat, start: nat, length: nat)
    requires Visited(offset, len, start, length) && len < 0x8000_0000 && length <= 0x8000_0000
    ensures CastsFit(offset, len, start, length)
  {
  }

  // ----- Tiling: every byte of the range in exactly one segment -----

  predicate InSegment(entries: seq<Entry>, i: nat, offset: nat, len: nat, k: nat)
    requires i < |entries|
  {
    var start, length := Start(entries, i), entries[i].length;
    var s := WideSegment(offset, len, start, length);
    Visited(offset, len, start, length) && s.bstart <= k < s.bstart + s.flength
  }

  /** A buffer position is in the segment of a file exactly when its byte is in that file. */
  lemma SegmentIsOverlap(entries: seq<Entry>, i: nat, offset: nat, len: nat, k: nat)
    requires i < |entries| && k < len
    ensures InSegment(entries, i, offset, len, k)
            <==> Start(entries, i) <= offset + k < Start(entries, i) + entries[i].length
  {
  }

  /** The file that holds a byte of the whole. */
  lemma {:induction false} FileOf(entries: seq<Entry>, n: nat, x: nat) returns (i: nat)
    requires n <= |entries| && x < Start(entries, n)
    ensures i < n && Start(entries, i) <= x < Start(entries, i) + entries[i].length
  {
    if x >= Start(entries, n - 1) {
      i := n - 1;
    } else {
      i := FileOf(entries, n - 1, x);
    }
  }

  /** The segments cover the part of the range that lies inside the files ... */
  lemma SegmentsCover(entries: seq<Entry>, offset: nat, len: nat, k: nat) returns (i: nat)
    requires k < len && offset + k < Total(entries)
    ensures i < |entries| && InSegment(entries, i, offset, len, k)
  {
    hide InSegment;
    i := FileOf(entries, |entries|, offset + k);
    SegmentIsOverlap(entries, i, offset, len, k);
  }

  /** ... and nothing else, without overlap. */
  lemma SegmentsDisjoint(entries: seq<Entry>, offset: nat, len: nat, k: nat, i: nat, j: nat)
    requires k < len && i <= j < |entries|
    requires InSegment(entries, i, offset, len, k) && InSegment(entries, j, offset, len, k)
    ensures i == j && offset + k < Total(entries)
  {
    hide InSegment;
    SegmentIsOverlap(entries, i, offset, len, k);
    SegmentIsOverlap(entries, j, offset, len, k);
    StartGrows(entries, j + 1, |entries|);
    if i < j {
      StartGrows(entries, i + 1, j);
    }
  }

  // ----- Reading -----

  /** How many bytes of the range lie inside `total`. */
  function Available(total: nat, offset: nat, len: nat): nat {
    if offset + len <= total then len else if offset <= total then total - offset else 0
  }

  lemma AvailableBound(total: nat, offset: nat, len: nat)
    ensures Available(total, offset, len) <= len
    ensures Available(total, offset, len) > 0 ==> offset + Available(total, offset, len) <= total
  {
  }

  /** The `n` bytes of `content` from `offset`. */
  function Part(content: seq<Byte>, offset: nat, n: nat): (p: seq<Byte>)
    requires n > 0 ==> offset + n <= |content|
    ensures |p| == n
  {
    if n > 0 then content[offset..offset + n] else []
  }

  /** `data` with `part` copied over it from position `k`. */
  function Pasted(data: seq<Byte>, k: nat, part: seq<Byte>): seq<Byte>
    requires k + |part| <= |data|
  {
    data[..k] + part + data[k + |part|..]
  }

  /** The buffer after `Seek(fstart)` and `ReadBlock(data + bstart, length)`; a shorter file leaves the rest as it was. */
  function ReadOver(file: seq<Byte>, fstart: nat, x: seq<Byte>, bstart: nat, length: nat): (b: seq<Byte>)
    requires bstart + length <= |x|
    ensures |b| == |x|
  {
    AvailableBound(|file|, fstart, length);
    Pasted(x, bstart, Part(file, fstart, Available(|file|, fstart, length)))
  }

  method ReadFile(file: seq<Byte>, fstart: nat, data: array<Byte>, bstart: nat, length: nat)
    requires bstart + length <= data.Length
    modifies data
    ensures data[..] == ReadOver(file, fstart, old(data[..]), bstart, length)
  {
    hide Available;
    AvailableBound(|file|, fstart, length);
    var n := Available(|file|, fstart, length);
    forall k | 0 <= k < n {
      data[bstart + k] := file[fstart + k];
    }
    assert data[bstart..bstart + n] == Part(file, fstart, n);
    assert data[..] == data[..bstart] + data[bstart..bstart + n] + data[bstart + n..];
    assert old(data[..])[bstart + n..] == old(data[bstart + n..]);
    assert old(data[..])[..bstart] == old(data[..bstart]);
  }

  predicate VisitedEntry(entries: seq<Entry>, i: nat, offset: nat, len: nat)
    requires i < |entries|
  {
    Visited(offset, len, Start(entries, i), entries[i].length)
  }

  predicate AllFit(entries: seq<Entry>, offset: nat, len: nat) {
    forall i :: 0 <= i < |entries| && VisitedEntry(entries, i, offset, len) ==>
      CastsFit(offset, len, Start(entries, i), entries[i].length)
  }

  predicate AllExist(root: Node, entries: seq<Entry>, offset: nat, len: nat) {
    forall i :: 0 <= i < |entries| && VisitedEntry(entries, i, offset, len) ==> Open(root, entries[i].path).Some?
  }

  /** The buffer once `content` is all there is to read from: the part of the range inside it is filled. */
  function Fill(content: seq<Byte>, offset: nat, len: nat, before: seq<Byte>): (b: seq<Byte>)
    requires len <= |before|
    ensures |b| == |before|
  {
    var n := Available(|content|, offset, len);
    Part(content, offset, n) + before[n..]
  }

  /** `TorrentFileStream::ReadBlockAt`. */
  method ReadSingleBlockAt(file: Option<seq<Byte>>, offset: nat, data: array<Byte>, len: nat) returns (ok: bool)
    requires len <= data.Length
    modifies data
    ensures ok <==> file.Some?
    ensures data[..] == if ok then Fill(file.value, offset, len, old(data[..])) else old(data[..])
  {
    if file.None? {
      return false;
    }
    ReadFile(file.value, offset, data, 0, len);
    assert old(data[..])[..0] == [];
    ok := true;
  }

  /** A segment starts in the buffer where the files before it ended, and ends where this file does. */
  lemma SegmentEnds(offset: nat, len: nat, start: nat, length: nat)
    ensures var s := WideSegment(offset, len, start, length);
            var n, n' := Available(start, offset, len), Available(start + length, offset, len);
            if Visited(offset, len, start, length) then
              n == s.bstart && n' == n + s.flength && (n > 0 && s.flength > 0 ==> offset + n == start && s.fstart == 0)
              && (n == 0 && s.flength > 0 ==> start + s.fstart == offset)
            else n' == n
  {
  }

  lemma SliceStep(c: seq<Byte>, b: seq<Byte>, offset: nat, n: nat, fstart: nat, flength: nat)
    requires fstart + flength <= |b| && (n > 0 ==> offset + n <= |c|)
    requires n > 0 && flength > 0 ==> offset + n == |c| && fstart == 0
    requires n == 0 && flength > 0 ==> |c| + fstart == offset
    ensures n + flength > 0 ==> offset + n + flength <= |c + b|
    ensures Part(c + b, offset, n + flength) == Part(c, offset, n) + b[fstart..fstart + flength]
  {
  }

  /** One file more: its segment, copied over what was there, is all that changes. */
  lemma FillStep(c: seq<Byte>, b: seq<Byte>, offset: nat, len: nat, before: seq<Byte>)
    requires len <= |before| && Visited(offset, len, |c|, |b|)
    ensures var x, s := Fill(c, offset, len, before), WideSegment(offset, len, |c|, |b|);
            0 <= s.bstart <= s.bstart + s.flength <= |x| && 0 <= s.fstart <= s.fstart + s.flength <= |b|
            && Fill(c + b, offset, len, before) == Pasted(x, s.bstart, b[s.fstart..s.fstart + s.flength])
  {
    hide Visited, WideSegment, Available, Part;
    SegmentEnds(offset, len, |c|, |b|);
    WideInBounds(offset, len, |c|, |b|);
    AvailableBound(|c|, offset, len);
    var s := WideSegment(offset, len, |c|, |b|);
    SliceStep(c, b, offset, s.bstart, s.fstart, s.flength);
    Overlay(Part(c, offset, s.bstart), b[s.fstart..s.fstart + s.flength], before);
  }

  lemma FillSkip(c: seq<Byte>, b: seq<Byte>, offset: nat, len: nat, before: seq<Byte>)
    requires len <= |before| && !Visited(offset, len, |c|, |b|)
    ensures Fill(c + b, offset, len, before) == Fill(c, offset, len, before)
  {
    hide Visited, WideSegment, Available;
    SegmentEnds(offset, len, |c|, |b|);
    AvailableBound(|c|, offset, len);
  }

  lemma Overlay(a: seq<Byte>, b: seq<Byte>, before: seq<Byte>)
    requires |a| + |b| <= |before|
    ensures var x := a + before[|a|..];
            a + b + before[|a| + |b|..] == x[..|a|] + b + x[|a| + |b|..]
  {
    var x := a + before[|a|..];
    assert x[..|a|] == a;
    assert x[|a| + |b|..] == before[|a| + |b|..];
  }

  // ----- The loop over the files, whatever their real lengths -----

  function ReadEntry(root: Node, e: Entry, start: nat, offset: nat, len: nat, x: seq<Byte>): (b: seq<Byte>)
    requires len <= |x|
    ensures |b| == |x|
  {
    if Visited(offset, len, start, e.length) && Open(root, e.path).Some? then
      WideInBounds(offset, len, start, e.length);
      var s := WideSegment(offset, len, start, e.length);
      ReadOver(Open(root, e.path).value, s.fstart, x, s.bstart, s.flength)
    else x
  }

  /** The buffer after the first `i` files. */
  function Reading(root: Node, entries: seq<Entry>, i: nat, offset: nat, len: nat, before: seq<Byte>): (b: seq<Byte>)
    requires i <= |entries| && len <= |before|
    ensures |b| == |before|
  {
    if i == 0 then before
    else
      ReadEntry(root, entries[i - 1], Start(entries, i - 1), offset, len,
                Reading(root, entries, i - 1, offset, len, before))
  }

  /** What one entry contributes, byte by byte, whatever the length of its file: bytes a shorter file lacks stay as they were. */
  lemma ReadEntryBytes(root: Node, e: Entry, start: nat, offset: nat, len: nat, x: seq<Byte>, k: nat)
    requires len <= |x| && k < |x|
    ensures var f := Open(root, e.path);
            ReadEntry(root, e, start, offset, len, x)[k]
            == if f.Some? && k < len && start <= offset + k < start + e.length && offset + k - start < |f.value|
               then f.value[offset + k - start] else x[k]
  {
    hide Open;
    if Visited(offset, len, start, e.length) && Open(root, e.path).Some? {
      WideInBounds(offset, len, start, e.length);
      var s := WideSegment(offset, len, start, e.length);
      hide Visited, WideSegment;
      SegmentHolds(offset, len, start, e.length, k);
      ReadOverBytes(Open(root, e.path).value, s.fstart, x, s.bstart, s.flength, k);
    }
  }

  lemma SegmentHolds(offset: nat, len: nat, start: nat, length: nat, k: nat)
    requires Visited(offset, len, start, length)
    ensures var s := WideSegment(offset, len, start, length);
            s.bstart <= k < s.bstart + s.flength <==> k < len && start <= offset + k < start + length
  {
  }

  lemma ReadOverBytes(file: seq<Byte>, fstart: nat, x: seq<Byte>, bstart: nat, length: nat, k: nat)
    requires bstart + length <= |x| && k < |x|
    ensures ReadOver(file, fstart, x, bstart, length)[k]
            == if bstart <= k < bstart + length && fstart + (k - bstart) < |file| then file[fstart + (k - bstart)] else x[k]
  {
  }

  predicate MissingEntry(root: Node, entries: seq<Entry>, i: nat, offset: nat, len: nat)
    requires i < |entries|
  {
    VisitedEntry(entries, i, offset, len) && Open(root, entries[i].path).None?
  }

  /** The first of `n` files that is visited and missing, where the loop gives up; `n` if there is none. */
  function FirstMissing(root: Node, entries: seq<Entry>, n: nat, offset: nat, len: nat): (m: nat)
    requires n <= |entries|
    ensures m <= n && (m < n ==> MissingEntry(root, entries, m, offset, len))
    ensures forall j :: 0 <= j < m ==> !MissingEntry(root, entries, j, offset, len)
  {
    if n == 0 then 0
    else
      var m := FirstMissing(root, entries, n - 1, offset, len);
      if m == n - 1 && !MissingEntry(root, entries, m, offset, len) then n else m
  }

  lemma FoundMissing(root: Node, entries: seq<Entry>, i: nat, offset: nat, len: nat)
    requires i < |entries| && MissingEntry(root, entries, i, offset, len)
    requires forall j :: 0 <= j < i ==> !MissingEntry(root, entries, j, offset, len)
    ensures FirstMissing(root, entries, |entries|, offset, len) == i
  {
    hide MissingEntry;
  }

  /** What a block read leaves in the buffer. */
  function ReadBlock(root: Node, entries: seq<Entry>, offset: nat, len: nat, before: seq<Byte>): (b: seq<Byte>)
    requires len <= |before|
    ensures |b| == |before|
  {
    Reading(root, entries, FirstMissing(root, entries, |entries|, offset, len), offset, len, before)
  }

  /** A file of the listed length moves the fill on by that file. */
  lemma ReadEntryFills(root: Node, e: Entry, c: seq<Byte>, offset: nat, len: nat, before: seq<Byte>)
    requires len <= |before|
    requires Visited(offset, len, |c|, e.length) ==> Open(root, e.path).Some? && |Open(root, e.path).value| == e.length
    ensures ReadEntry(root, e, |c|, offset, len, Fill(c, offset, len, before))
            == Fill(c + Bytes(root, e), offset, len, before)
  {
    hide Visited, WideSegment, Available, Part, Fill, Open, Pasted;
    var b := Bytes(root, e);
    if Visited(offset, len, |c|, e.length) {
      FillStep(c, b, offset, len, before);
      WideInBounds(offset, len, |c|, e.length);
      WholeSegment(b, WideSegment(offset, len, |c|, e.length));
    } else {
      FillSkip(c, b, offset, len, before);
    }
  }

  lemma WholeSegment(b: seq<Byte>, s: Segment)
    requires 0 <= s.fstart && 0 <= s.flength && s.fstart + s.flength <= |b|
    ensures Part(b, s.fstart, Available(|b|, s.fstart, s.flength)) == b[s.fstart..s.fstart + s.flength]
  {
  }

  /** With the listed lengths, what is read is the content up to the file where the loop gives up. */
  lemma {:induction false} ReadingIsFill(root: Node, entries: seq<Entry>, i: nat, offset: nat, len: nat, before: seq<Byte>)
    requires i <= |entries| && len <= |before| && Faithful(root, entries)
    requires forall j :: 0 <= j < i ==> !MissingEntry(root, entries, j, offset, len)
    ensures Reading(root, entries, i, offset, len, before) == Fill(Content(root, entries, i), offset, len, before)
  {
    hide Visited, Open, Fill, Bytes, ReadEntry;
    if i == 0 {
      FillNothing(offset, len, before);
    } else {
      ReadingIsFill(root, entries, i - 1, offset, len, before);
      assert !MissingEntry(root, entries, i - 1, offset, len);
      ReadEntryFills(root, entries[i - 1], Content(root, entries, i - 1), offset, len, before);
    }
  }

  /** The body of the loop for a visited file that exists. */
  method ReadFrom(file: seq<Byte>, offset: nat, data: array<Byte>, len: nat, start: nat, length: nat)
    requires Visited(offset, len, start, length) && CastsFit(offset, len, start, length) && len <= data.Length
    modifies data
    ensures var s := WideSegment(offset, len, start, length);
            0 <= s.bstart && 0 <= s.flength && s.bstart + s.flength <= data.Length && 0 <= s.fstart
            && data[..] == ReadOver(file, s.fstart, old(data[..]), s.bstart, s.flength)
  {
    hide Visited, SegmentOf, WideSegment, CastsFit, Available, Part, Pasted;
    CastsExact(offset, len, start, length);
    WideInBounds(offset, len, start, length);
    var s := SegmentOf(offset, len, start, length);
    ReadFile(file, s.fstart, data, s.bstart, s.flength);
  }

  /** `TorrentDirectoryStream::ReadBlockAt`. */
  method ReadBlockAt(root: Node, entries: seq<Entry>, offset: nat, data: array<Byte>, len: nat) returns (ok: bool)
    requires len <= data.Length && AllFit(entries, offset, len)
    modifies data
    ensures ok <==> AllExist(root, entries, offset, len)
    ensures data[..] == ReadBlock(root, entries, offset, len, old(data[..]))
    ensures Faithful(root, entries) ==>
              var m := FirstMissing(root, entries, |entries|, offset, len);
              data[..] == Fill(Content(root, entries, m), offset, len, old(data[..])) && (ok <==> m == |entries|)
  {
    hide Visited, CastsFit, Open, Fill, Start, Content, Faithful, ReadOver, WideSegment;
    var currentOffset := 0;
    ghost var before := data[..];
    ghost var m := FirstMissing(root, entries, |entries|, offset, len);
    if Faithful(root, entries) {
      ReadingIsFill(root, entries, m, offset, len, before);
    }
    StartOfFirst(entries);
    for i := 0 to |entries|
      invariant currentOffset == Start(entries, i)
      invariant data[..] == Reading(root, entries, i, offset, len, before)
      invariant forall j :: 0 <= j < i ==> !MissingEntry(root, entries, j, offset, len)
    {
      StartOfNext(entries, i);
      if Visited(offset, len, currentOffset, entries[i].length) {
        var file := Open(root, entries[i].path);
        if file.None? {
          FoundMissing(root, entries, i, offset, len);
          assert MissingEntry(root, entries, i, offset, len);
          return false;
        }
        assert VisitedEntry(entries, i, offset, len);
        ReadFrom(file.value, offset, data, len, currentOffset, entries[i].length);
      }
      currentOffset := currentOffset + entries[i].length;
    }
    assert m == |entries|;
    forall i | 0 <= i < |entries| && VisitedEntry(entries, i, offset, len)
      ensures Open(root, entries[i].path).Some?
    {
      assert !MissingEntry(root, entries, i, offset, len);
    }
    ok := true;
  }

  lemma StartOfFirst(entries: seq<Entry>)
    ensures Start(entries, 0) == 0
  {
  }

  lemma StartOfNext(entries: seq<Entry>, i: nat)
    requires i < |entries|
    ensures Start(entries, i + 1) == Start(entries, i) + entries[i].length
  {
  }

  lemma FillNothing(offset: nat, len: nat, before: seq<Byte>)
    requires len <= |before|
    ensures Fill([], offset, len, before) == before
  {
  }

  /** What a fill is, byte by byte: the range of the content, and the old bytes past its end. */
  lemma FillBytes(content: seq<Byte>, offset: nat, len: nat, before: seq<Byte>, k: nat)
    requires len <= |before| && k < |before|
    ensures Fill(content, offset, len, before)[k]
            == if k < len && offset + k < |content| then content[offset + k] else before[k]
  {
  }
}
