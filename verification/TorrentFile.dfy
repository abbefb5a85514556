/**
 * Building a torrent's info dictionary (TorrentFile.cpp): the crawl that lists the files,
 * the piece count, and the hashing of the pieces through `TorrentStream`. The hash is a
 * parameter that gives twenty bytes. See "pieces" and "piece length" in the info
 * dictionary section of BEP 3.
 */
module TorrentFile {
  import opened MachineInt
  import opened Text
  import opened TorrentStream
  import Paths

  const DIGEST := 20

  /** `fileListOrLength`. */
  datatype FileList = Single(length: nat) | Multi(entries: seq<Entry>)

  // ----- The crawl -----

  /** `inTorrent / name`; the operator parses the name as a path. */
  function In(prefix: Path, name: string): Path {
    prefix + Paths.SplitPath(name)
  }

  lemma InOne(prefix: Path, name: string)
    requires Paths.Component(name)
    ensures In(prefix, name) == prefix + [name]
  {
    Paths.SplitOne(name);
  }

  /** What the crawl lists: files in directory order, subdirectories where they stand. */
  function Listing(items: Items, prefix: Path): seq<Entry>
    decreases items
  {
    match items
    case End => []
    case Item(name, node, rest) => ListingOf(name, node, prefix) + Listing(rest, prefix)
  }

  function ListingOf(name: string, node: Node, prefix: Path): seq<Entry>
    decreases node
  {
    match node
    case File(content) => [Entry(In(prefix, name), |content|)]
    case Dir(inner) => Listing(inner, In(prefix, name))
    case Gone => []
  }

  /** The bytes of a tree in the same order. */
  function Flat(items: Items): seq<Byte> {
    match items
    case End => []
    case Item(name, node, rest) => FlatOf(node) + Flat(rest)
  }

  function FlatOf(node: Node): seq<Byte> {
    match node
    case File(content) => content
    case Dir(inner) => Flat(inner)
    case Gone => []
  }

  /** Names are path components, and no directory has two entries of one name. */
  predicate ProperNames(items: Items) {
    match items
    case End => true
    case Item(name, node, rest) =>
      Paths.Component(name) && Child(rest, name).None? && (node.Dir? ==> ProperNames(node.items)) && ProperNames(rest)
  }

  /** The state the crawl closure captures. */
  class Crawler {
    var ents: seq<Entry>
    var len: nat

    constructor ()
      ensures ents == [] && len == 0
    {
      ents, len := [], 0;
    }

    /** `crawl` on one directory. */
    method Crawl(items: Items, inTorrent: Path)
      modifies this
      ensures ents == old(ents) + Listing(items, inTorrent)
      ensures len == old(len) + |Flat(items)|
    {
      hide In;
      var left := items;
      while left != End
        invariant ents + Listing(left, inTorrent) == old(ents) + Listing(items, inTorrent)
        invariant len + |Flat(left)| == old(len) + |Flat(items)|
        invariant left == items || left < items
        decreases left
      {
        var Item(name, node, rest) := left;
        match node {
          case File(content) =>
            ents := ents + [Entry(In(inTorrent, name), |content|)];
            len := len + |content|;
          case Dir(inner) =>
            Crawl(inner, In(inTorrent, name));
          case Gone =>
        }
        left := rest;
      }
    }
  }

  // ----- The listing names the tree's own files, in order -----

  /** A relative position, resolved from the node at `p`. */
  lemma {:induction false} AtConcat(root: Node, p: Path, q: Path)
    requires At(root, p).Some?
    ensures At(root, p + q) == At(At(root, p).value, q)
    decreases |p|
  {
    if p == [] {
      assert p + q == q;
    } else {
      var n := Child(root.items, p[0]).value;
      assert (p + q)[1..] == p[1..] + q;
      AtConcat(n, p[1..], q);
    }
  }

  /** `items` is the tail of the directory at `prefix`, and nothing before it hides its names. */
  ghost predicate TailAt(root: Node, prefix: Path, items: Items) {
    At(root, prefix).Some? && At(root, prefix).value.Dir?
    && forall name :: Child(items, name).Some? ==> Child(At(root, prefix).value.items, name) == Child(items, name)
  }

  lemma TailRest(root: Node, prefix: Path, items: Items)
    requires items.Item? && ProperNames(items) && TailAt(root, prefix, items)
    ensures TailAt(root, prefix, items.rest)
    ensures At(root, prefix + [items.name]) == Some(items.node)
  {
    forall name | Child(items.rest, name).Some?
      ensures Child(At(root, prefix).value.items, name) == Child(items.rest, name)
    {
      assert Child(items, name) == Child(items.rest, name);
    }
    assert Child(items, items.name) == Some(items.node);
    AtConcat(root, prefix, [items.name]);
    assert [items.name][1..] == [];
  }

  predicate Opens(root: Node, e: Entry) {
    var f := Open(root, e.path); f.Some? && |f.value| == e.length
  }

  predicate AllOpen(root: Node, es: seq<Entry>) {
    forall i :: 0 <= i < |es| ==> Opens(root, es[i])
  }

  function AllBytes(root: Node, es: seq<Entry>): seq<Byte> {
    Content(root, es, |es|)
  }

  lemma {:induction false} ContentPrefix(root: Node, a: seq<Entry>, b: seq<Entry>, i: nat)
    requires i <= |a|
    ensures Content(root, a + b, i) == Content(root, a, i)
  {
    if i > 0 {
      ContentPrefix(root, a, b, i - 1);
    }
  }

  lemma {:induction false} AllBytesConcat(root: Node, a: seq<Entry>, b: seq<Entry>)
    ensures AllBytes(root, a + b) == AllBytes(root, a) + AllBytes(root, b)
  {
    hide Bytes;
    if b == [] {
      assert a + b == a;
    } else {
      var b', last := b[..|b| - 1], b[|b| - 1];
      AllBytesConcat(root, a, b');
      assert (a + b') + [last] == a + b;
      AllBytesSnoc(root, a + b', last);
      AllBytesSnoc(root, b', last);
      assert b' + [last] == b;
    }
  }

  lemma AllBytesSnoc(root: Node, a: seq<Entry>, e: Entry)
    ensures AllBytes(root, a + [e]) == AllBytes(root, a) + Bytes(root, e)
  {
    ContentPrefix(root, a, [e], |a|);
  }

  /** Every listed entry opens a file of the listed length, and their bytes in order are the tree's. */
  lemma {:induction false} ListingIsFlat(root: Node, items: Items, prefix: Path)
    requires ProperNames(items) && TailAt(root, prefix, items)
    ensures AllOpen(root, Listing(items, prefix))
    ensures AllBytes(root, Listing(items, prefix)) == Flat(items)
    decreases items
  {
    hide TailAt, Bytes, Open, At, In;
    if items.Item? {
      TailRest(root, prefix, items);
      InOne(prefix, items.name);
      ListingIsFlat(root, items.rest, prefix);
      ListingOfIsFlat(root, items.name, items.node, prefix);
      AllBytesConcat(root, ListingOf(items.name, items.node, prefix), Listing(items.rest, prefix));
    }
  }

  lemma {:induction false} ListingOfIsFlat(root: Node, name: string, node: Node, prefix: Path)
    requires In(prefix, name) == prefix + [name] && At(root, prefix + [name]) == Some(node) && (node.Dir? ==> ProperNames(node.items))
    ensures AllOpen(root, ListingOf(name, node, prefix))
    ensures AllBytes(root, ListingOf(name, node, prefix)) == FlatOf(node)
    decreases node
  {
    hide In;
    match node {
      case File(content) =>
        AllBytesSnoc(root, [], Entry(In(prefix, name), |content|));
      case Dir(inner) =>
        ListingIsFlat(root, inner, prefix + [name]);
      case Gone =>
    }
  }

  /** So the listing of a directory serves `TorrentStream`, and its lengths add up to the bytes. */
  lemma ListingServes(items: Items)
    requires ProperNames(items)
    ensures var root, es := Dir(items), Listing(items, []);
            AllOpen(root, es) && Faithful(root, es) && AllBytes(root, es) == Flat(items) && Total(es) == |Flat(items)|
  {
    ListingIsFlat(Dir(items), items, []);
  }

  // ----- Every file is listed, and once -----

  /** A file of the tree is in the listing, with its length. */
  lemma {:induction false} FileListed(items: Items, prefix: Path, p: Path, content: seq<Byte>)
    requires ProperNames(items) && At(Dir(items), p) == Some(File(content))
    ensures Entry(prefix + p, |content|) in Listing(items, prefix)
    decreases items
  {
    hide In;
    var Item(name, node, rest) := items;
    InOne(prefix, name);
    if p[0] == name {
      assert p == [name] + p[1..];
      assert prefix + p == prefix + [name] + p[1..];
      match node {
        case File(c) =>
          NothingBelow(node, p[1..]);
          assert p == [name] && c == content;
          assert ListingOf(name, node, prefix)[0] == Entry(prefix + p, |content|);
        case Dir(inner) =>
          FileListed(inner, prefix + [name], p[1..], content);
        case Gone =>
          NothingBelow(node, p[1..]);
      }
    } else {
      FileListed(rest, prefix, p, content);
    }
  }

  lemma NothingBelow(node: Node, p: Path)
    requires !node.Dir?
    ensures At(node, p).Some? ==> p == [] && At(node, p).value == node
  {
  }

  predicate Distinct(es: seq<Entry>) {
    forall i, j :: 0 <= i < j < |es| ==> es[i].path != es[j].path
  }

  /** Listed paths go through a name of the directory. */
  predicate Through(es: seq<Entry>, prefix: Path, items: Items) {
    forall e :: e in es ==> |prefix| < |e.path| && prefix == e.path[..|prefix|] && Child(items, e.path[|prefix|]).Some?
  }

  predicate ThroughName(es: seq<Entry>, prefix: Path, name: string) {
    forall e :: e in es ==> |prefix| < |e.path| && prefix == e.path[..|prefix|] && e.path[|prefix|] == name
  }

  lemma DistinctConcat(a: seq<Entry>, b: seq<Entry>, prefix: Path, name: string, rest: Items)
    requires Distinct(a) && Distinct(b) && ThroughName(a, prefix, name) && Through(b, prefix, rest)
    requires Child(rest, name).None?
    ensures Distinct(a + b)
  {
    forall i, j | 0 <= i < j < |a + b|
      ensures (a + b)[i].path != (a + b)[j].path
    {
      if i < |a| <= j {
        assert a[i] in a && b[j - |a|] in b;
      }
    }
  }

  lemma {:induction false} ListingDistinct(items: Items, prefix: Path)
    requires ProperNames(items)
    ensures Distinct(Listing(items, prefix)) && Through(Listing(items, prefix), prefix, items)
    decreases items
  {
    hide In, Distinct;
    if items.End? {
      assert Distinct([]) by { NoneDistinct(); }
    } else {
      var Item(name, node, rest) := items;
      ListingDistinct(rest, prefix);
      ListingOfDistinct(name, node, prefix);
      DistinctConcat(ListingOf(name, node, prefix), Listing(rest, prefix), prefix, name, rest);
    }
  }

  lemma NoneDistinct()
    ensures Distinct([])
  {
  }

  lemma {:induction false} ListingOfDistinct(name: string, node: Node, prefix: Path)
    requires Paths.Component(name) && (node.Dir? ==> ProperNames(node.items))
    ensures Distinct(ListingOf(name, node, prefix)) && ThroughName(ListingOf(name, node, prefix), prefix, name)
    decreases node
  {
    hide In;
    InOne(prefix, name);
    if node.Dir? {
      var es := ListingOf(name, node, prefix);
      ListingDistinct(node.items, prefix + [name]);
      forall e | e in es
        ensures |prefix| < |e.path| && prefix == e.path[..|prefix|] && e.path[|prefix|] == name
      {
        assert e.path[..|prefix| + 1] == prefix + [name];
        assert e.path[..|prefix|] == e.path[..|prefix| + 1][..|prefix|];
        assert e.path[|prefix|] == e.path[..|prefix| + 1][|prefix|];
      }
    }
  }

  /** The entries are exactly the files of the tree with their lengths, empty ones too, and none occurs twice. */
  lemma ListingExact(items: Items, e: Entry)
    requires ProperNames(items)
    ensures e in Listing(items, []) <==> Opens(Dir(items), e)
    ensures Distinct(Listing(items, []))
  {
    hide Distinct, Through;
    ListingDistinct(items, []);
    ListingIsFlat(Dir(items), items, []);
    if Opens(Dir(items), e) {
      var File(content) := At(Dir(items), e.path).value;
      FileListed(items, [], e.path, content);
      assert [] + e.path == e.path;
    }
    if e in Listing(items, []) {
      var i :| 0 <= i < |Listing(items, [])| && Listing(items, [])[i] == e;
    }
  }

  // ----- Pieces -----

  /** The rounded-up piece count of `CreateFromFilesystem`. */
  function PieceCount(total: nat, pieceLength: nat): nat
    requires pieceLength > 0
  {
    total / pieceLength + (if total % pieceLength != 0 then 1 else 0)
  }

  /** The length of piece `i`, as the loop of `ParsePieces` chooses it. */
  function PieceLength(total: nat, pieceLength: nat, i: nat): nat
    requires pieceLength > 0
  {
    var lastPieceSize := total % pieceLength;
    if i + 1 == PieceCount(total, pieceLength) && lastPieceSize != 0 then Min(pieceLength, lastPieceSize) else pieceLength
  }

  /** Pieces follow one another, are full but for the last, and end with the content. */
  lemma PieceBounds(total: nat, pieceLength: nat, i: nat)
    requires pieceLength > 0 && i < PieceCount(total, pieceLength)
    ensures 0 < PieceLength(total, pieceLength, i) <= pieceLength
    ensures i * pieceLength + PieceLength(total, pieceLength, i) == Min((i + 1) * pieceLength, total)
    ensures i + 1 == PieceCount(total, pieceLength)
            ==> i * pieceLength + PieceLength(total, pieceLength, i) == total
  {
    var q, r := total / pieceLength, total % pieceLength;
    assert total == q * pieceLength + r;
    assert (i + 1) * pieceLength == i * pieceLength + pieceLength;
    if i < q {
      MulGrows(i + 1, q, pieceLength);
    }
  }

  lemma MulGrows(a: nat, b: nat, n: nat)
    requires a <= b
    ensures a * n <= b * n
    ensures a + 1 <= b ==> a * n + n <= b * n
  {
    assert b * n == a * n + (b - a) * n;
    if a < b {
      assert (b - a) * n == (b - a - 1) * n + n;
    }
  }

  /** The count is the ceiling of the quotient. */
  lemma CountIsCeiling(total: nat, pieceLength: nat)
    requires pieceLength > 0
    ensures var n := PieceCount(total, pieceLength);
            total <= n * pieceLength && (n > 0 ==> (n - 1) * pieceLength < total)
  {
    var q, r := total / pieceLength, total % pieceLength;
    assert total == q * pieceLength + r;
    assert (q + 1) * pieceLength == q * pieceLength + pieceLength;
    assert (q - 1) * pieceLength == q * pieceLength - pieceLength;
  }

  function Piece(content: seq<Byte>, pieceLength: nat, i: nat): seq<Byte>
    requires pieceLength > 0 && i < PieceCount(|content|, pieceLength)
  {
    PieceBounds(|content|, pieceLength, i);
    content[i * pieceLength..i * pieceLength + PieceLength(|content|, pieceLength, i)]
  }

  /** The first `n` pieces, joined. */
  function Joined(content: seq<Byte>, pieceLength: nat, n: nat): seq<Byte>
    requires pieceLength > 0 && n <= PieceCount(|content|, pieceLength)
  {
    if n == 0 then [] else Joined(content, pieceLength, n - 1) + Piece(content, pieceLength, n - 1)
  }

  /** The pieces partition the content. */
  lemma {:induction false} PiecesJoin(content: seq<Byte>, pieceLength: nat, n: nat)
    requires pieceLength > 0 && n <= PieceCount(|content|, pieceLength)
    ensures Joined(content, pieceLength, n) == content[..Min(n * pieceLength, |content|)]
  {
    hide PieceCount, PieceLength;
    if n > 0 {
      var k := (n - 1) * pieceLength;
      PiecesJoin(content, pieceLength, n - 1);
      PieceBounds(|content|, pieceLength, n - 1);
      var m := k + PieceLength(|content|, pieceLength, n - 1);
      assert content[..k] + content[k..m] == content[..m];
    }
  }

  lemma PiecesPartition(content: seq<Byte>, pieceLength: nat)
    requires pieceLength > 0
    ensures Joined(content, pieceLength, PieceCount(|content|, pieceLength)) == content
  {
    hide PieceCount, Joined;
    PiecesJoin(content, pieceLength, PieceCount(|content|, pieceLength));
    CountIsCeiling(|content|, pieceLength);
  }

  /** A hash of twenty bytes. */
  ghost predicate IsHash(hash: seq<Byte> -> seq<Byte>) {
    forall b :: |hash(b)| == DIGEST
  }

  /** The digests of the first `n` pieces, as `pieces.data` holds them. */
  function PieceTable(hash: seq<Byte> -> seq<Byte>, content: seq<Byte>, pieceLength: nat, n: nat): seq<Byte>
    requires pieceLength > 0 && n <= PieceCount(|content|, pieceLength)
  {
    if n == 0 then []
    else PieceTable(hash, content, pieceLength, n - 1) + hash(Piece(content, pieceLength, n - 1))
  }

  /** Digest `i` of the table is the hash of piece `i`. */
  lemma {:induction false} TableEntry(hash: seq<Byte> -> seq<Byte>, content: seq<Byte>, pieceLength: nat, n: nat, i: nat)
    requires IsHash(hash) && pieceLength > 0 && n <= PieceCount(|content|, pieceLength) && i <= n
    ensures var t := PieceTable(hash, content, pieceLength, n);
            |t| == 20 * n
            && (i < n ==> t[DIGEST * i..DIGEST * (i + 1)] == hash(Piece(content, pieceLength, i)))
  {
    hide PieceCount, Piece;
    if n > 0 {
      TableEntry(hash, content, pieceLength, n - 1, if i < n then (if i == n - 1 then 0 else i) else 0);
    }
  }

  // ----- Hashing the pieces -----

  /** What `GetStreamFromFilesystem` returns. */
  datatype Source = FileSource(file: Option<seq<Byte>>) | DirSource(root: Node, entries: seq<Entry>)

  function SourceBytes(src: Source): seq<Byte> {
    match src
    case FileSource(file) => (match file case Some(c) => c case None => [])
    case DirSource(root, entries) => AllBytes(root, entries)
  }

  /** The files are there, with the listed lengths. */
  predicate Serves(src: Source) {
    match src
    case FileSource(file) => file.Some?
    case DirSource(root, entries) => AllOpen(root, entries)
  }

  /** No piece hits the casts of `TorrentDirectoryStream`. */
  predicate PiecesFit(entries: seq<Entry>, total: nat, pieceLength: nat)
    requires pieceLength > 0
  {
    forall i :: 0 <= i < PieceCount(total, pieceLength) ==>
      AllFit(entries, i * pieceLength, PieceLength(total, pieceLength, i))
  }

  predicate SmallEntries(entries: seq<Entry>) {
    forall i :: 0 <= i < |entries| ==> entries[i].length <= 0x8000_0000
  }

  lemma SmallEntriesFit(entries: seq<Entry>, offset: nat, len: nat)
    requires SmallEntries(entries) && len < 0x8000_0000
    ensures AllFit(entries, offset, len)
  {
    hide Visited, CastsFit;
    forall i | 0 <= i < |entries| && VisitedEntry(entries, i, offset, len)
      ensures CastsFit(offset, len, Start(entries, i), entries[i].length)
    {
      SmallFilesFit(offset, len, Start(entries, i), entries[i].length);
    }
  }

  /** Files of at most two gibibytes never do, with pieces below that. */
  lemma SmallFilesHash(entries: seq<Entry>, total: nat, pieceLength: nat)
    requires SmallEntries(entries) && 0 < pieceLength < 0x8000_0000
    ensures PiecesFit(entries, total, pieceLength)
  {
    hide SmallEntries, PieceCount, PieceLength, AllFit;
    forall i | 0 <= i < PieceCount(total, pieceLength)
      ensures AllFit(entries, i * pieceLength, PieceLength(total, pieceLength, i))
    {
      PieceBounds(total, pieceLength, i);
      SmallEntriesFit(entries, i * pieceLength, PieceLength(total, pieceLength, i));
    }
  }

  /** Where the first piece starts that is more than two gibibytes past the start of file `i`. */
  function FarPiece(entries: seq<Entry>, i: nat, pieceLength: nat): nat
    requires i < |entries| && pieceLength > 0
  {
    ((Start(entries, i) + 0x8000_0000) / pieceLength + 1) * pieceLength
  }

  /** There is such a piece, and its read visits the file. */
  predicate ReadFar(entries: seq<Entry>, i: nat, pieceLength: nat)
    requires i < |entries| && pieceLength > 0
  {
    var far := FarPiece(entries, i, pieceLength);
    far <= Start(entries, i) + entries[i].length && far < Total(entries)
  }

  lemma FarPieceBounds(entries: seq<Entry>, i: nat, pieceLength: nat)
    requires i < |entries| && pieceLength > 0
    ensures var base, far := Start(entries, i) + 0x8000_0000, FarPiece(entries, i, pieceLength);
            base < far <= base + pieceLength
            && forall k: nat :: k * pieceLength > base ==> far <= k * pieceLength
  {
    hide Start;
    var base := Start(entries, i) + 0x8000_0000;
    var q := base / pieceLength;
    assert base == q * pieceLength + base % pieceLength;
    assert (q + 1) * pieceLength == q * pieceLength + pieceLength;
    forall k: nat | k * pieceLength > base
      ensures (q + 1) * pieceLength <= k * pieceLength
    {
      if k <= q {
        MulGrows(k, q, pieceLength);
      } else {
        MulGrows(q + 1, k, pieceLength);
      }
    }
  }

  /** A piece that starts inside the content is counted. */
  lemma PieceInside(total: nat, pieceLength: nat, k: nat)
    requires pieceLength > 0
    ensures k < PieceCount(total, pieceLength) <==> k * pieceLength < total
  {
    hide PieceCount;
    CountIsCeiling(total, pieceLength);
    var n := PieceCount(total, pieceLength);
    if k < n {
      MulGrows(k, n - 1, pieceLength);
    } else {
      MulGrows(n, k, pieceLength);
    }
  }

  /** Reading piece `k` meets the casts at file `i`. */
  lemma FarReadMisfits(entries: seq<Entry>, i: nat, offset: nat, len: nat)
    requires i < |entries| && 0 < len
    requires 0x8000_0000 < offset - Start(entries, i) < 0x1_0000_0000
    requires offset <= Start(entries, i) + entries[i].length
    ensures !AllFit(entries, offset, len)
  {
    hide Start;
    var d := offset - Start(entries, i);
    assert d % 0x1_0000_0000 == d;
    assert VisitedEntry(entries, i, offset, len);
  }

  lemma NearReadFits(entries: seq<Entry>, offset: nat, len: nat)
    requires 0 < len < 0x8000_0000
    requires forall i :: 0 <= i < |entries| && offset - Start(entries, i) > 0x8000_0000 ==>
               offset > Start(entries, i) + entries[i].length
    ensures AllFit(entries, offset, len)
  {
    hide Start;
    forall i | 0 <= i < |entries| && VisitedEntry(entries, i, offset, len)
      ensures CastsFit(offset, len, Start(entries, i), entries[i].length)
    {
      NearFits(offset, len, Start(entries, i), entries[i].length);
    }
  }

  lemma NearFits(offset: nat, len: nat, start: nat, length: nat)
    requires Visited(offset, len, start, length) && 0 < len < 0x8000_0000
    requires offset - start > 0x8000_0000 ==> offset > start + length
    ensures CastsFit(offset, len, start, length)
  {
  }

  /** The casts do no harm exactly when no piece is read more than two gibibytes into a file. */
  lemma PiecesFitExact(entries: seq<Entry>, pieceLength: nat)
    requires 0 < pieceLength < 0x8000_0000
    ensures PiecesFit(entries, Total(entries), pieceLength)
            <==> forall i :: 0 <= i < |entries| ==> !ReadFar(entries, i, pieceLength)
  {
    hide AllFit, FarPiece, PieceCount, PieceLength, Start;
    var total := Total(entries);
    if i :| 0 <= i < |entries| && ReadFar(entries, i, pieceLength) {
      var k := (Start(entries, i) + 0x8000_0000) / pieceLength + 1;
      FarPieceIs(entries, i, pieceLength);
      FarPieceBounds(entries, i, pieceLength);
      PieceInside(total, pieceLength, k);
      PieceBounds(total, pieceLength, k);
      FarReadMisfits(entries, i, k * pieceLength, PieceLength(total, pieceLength, k));
    } else {
      forall k | 0 <= k < PieceCount(total, pieceLength)
        ensures AllFit(entries, k * pieceLength, PieceLength(total, pieceLength, k))
      {
        PieceInside(total, pieceLength, k);
        PieceBounds(total, pieceLength, k);
        forall i | 0 <= i < |entries| && k * pieceLength - Start(entries, i) > 0x8000_0000
          ensures k * pieceLength > Start(entries, i) + entries[i].length
        {
          FarPieceBounds(entries, i, pieceLength);
          assert !ReadFar(entries, i, pieceLength);
        }
        NearReadFits(entries, k * pieceLength, PieceLength(total, pieceLength, k));
      }
    }
  }

  lemma FarPieceIs(entries: seq<Entry>, i: nat, pieceLength: nat)
    requires i < |entries| && pieceLength > 0
    ensures FarPiece(entries, i, pieceLength) == ((Start(entries, i) + 0x8000_0000) / pieceLength + 1) * pieceLength
  {
  }

  /** So no directory with a file longer than two gibibytes and a piece can be hashed. */
  lemma LargeFilesFail(entries: seq<Entry>, pieceLength: nat, i: nat)
    requires i < |entries| && 0 < pieceLength < 0x8000_0000
    requires entries[i].length > 0x8000_0000 + pieceLength
    ensures !PiecesFit(entries, Total(entries), pieceLength)
  {
    hide PiecesFit, FarPiece;
    FarPieceBounds(entries, i, pieceLength);
    StartGrows(entries, i + 1, |entries|);
    PiecesFitExact(entries, pieceLength);
    assert ReadFar(entries, i, pieceLength);
  }

  /** What `rwa->ReadBlockAt` leaves in the buffer. */
  function ReadInto(src: Source, offset: nat, len: nat, before: seq<Byte>): (b: seq<Byte>)
    requires len <= |before|
    ensures |b| == |before|
  {
    match src
    case FileSource(file) => (match file case Some(c) => Fill(c, offset, len, before) case None => before)
    case DirSource(root, entries) => ReadBlock(root, entries, offset, len, before)
  }

  method ReadSource(src: Source, offset: nat, data: array<Byte>, len: nat)
    requires len <= data.Length && (src.DirSource? ==> AllFit(src.entries, offset, len))
    modifies data
    ensures data[..] == ReadInto(src, offset, len, old(data[..]))
  {
    hide AllFit, ReadBlock, Fill;
    match src {
      case FileSource(file) =>
        var _ := ReadSingleBlockAt(file, offset, data, len);
      case DirSource(root, entries) =>
        var _ := ReadBlockAt(root, entries, offset, data, len);
    }
  }

  /** Where the files are there, the buffer holds the bytes asked for. */
  lemma ReadServed(src: Source, offset: nat, len: nat, before: seq<Byte>)
    requires Serves(src) && 0 < len <= |before| && offset + len <= |SourceBytes(src)|
    ensures ReadInto(src, offset, len, before)[..len] == SourceBytes(src)[offset..offset + len]
  {
    hide VisitedEntry, Open, Content, Reading;
    match src {
      case FileSource(_) =>
      case DirSource(root, entries) =>
        NoneMissing(root, entries, offset, len);
        ReadingIsFill(root, entries, |entries|, offset, len, before);
    }
  }

  lemma NoneMissing(root: Node, entries: seq<Entry>, offset: nat, len: nat)
    requires AllOpen(root, entries)
    ensures FirstMissing(root, entries, |entries|, offset, len) == |entries| && Faithful(root, entries)
    ensures forall j :: 0 <= j < |entries| ==> !MissingEntry(root, entries, j, offset, len)
  {
    hide VisitedEntry, Open;
    assert forall j :: 0 <= j < |entries| ==> Opens(root, entries[j]);
  }

  function Zeros(n: nat): (z: seq<Byte>)
    ensures |z| == n && forall i :: 0 <= i < n ==> z[i] == 0
  {
    seq(n, _ => 0)
  }

  /** The one buffer of `ParsePieces` after `n` pieces: what a read leaves alone stays from before. */
  function BufferAfter(src: Source, total: nat, pieceLength: nat, n: nat): (b: seq<Byte>)
    requires pieceLength > 0 && n <= PieceCount(total, pieceLength)
    ensures |b| == pieceLength
  {
    if n == 0 then Zeros(pieceLength)
    else
      PieceBounds(total, pieceLength, n - 1);
      ReadInto(src, (n - 1) * pieceLength, PieceLength(total, pieceLength, n - 1),
               BufferAfter(src, total, pieceLength, n - 1))
  }

  /** What is hashed for piece `i`. */
  function Hashed(src: Source, total: nat, pieceLength: nat, i: nat): seq<Byte>
    requires pieceLength > 0 && i < PieceCount(total, pieceLength)
  {
    PieceBounds(total, pieceLength, i);
    BufferAfter(src, total, pieceLength, i + 1)[..PieceLength(total, pieceLength, i)]
  }

  /** The digests `ParsePieces` stores, whatever the source can serve. */
  function DigestTable(hash: seq<Byte> -> seq<Byte>, src: Source, total: nat, pieceLength: nat, n: nat): seq<Byte>
    requires pieceLength > 0 && n <= PieceCount(total, pieceLength)
  {
    if n == 0 then []
    else DigestTable(hash, src, total, pieceLength, n - 1) + hash(Hashed(src, total, pieceLength, n - 1))
  }

  lemma {:induction false} DigestEntry(hash: seq<Byte> -> seq<Byte>, src: Source, total: nat, pieceLength: nat, n: nat, i: nat)
    requires IsHash(hash) && pieceLength > 0 && n <= PieceCount(total, pieceLength) && i <= n
    ensures var t := DigestTable(hash, src, total, pieceLength, n);
            |t| == 20 * n
            && (i < n ==> t[DIGEST * i..DIGEST * (i + 1)] == hash(Hashed(src, total, pieceLength, i)))
  {
    hide PieceCount, Hashed;
    if n > 0 {
      DigestEntry(hash, src, total, pieceLength, n - 1, if i < n - 1 then i else 0);
    }
  }

  /** Where the files are there, those are the digests of the pieces of the content. */
  lemma {:induction false} DigestsOfContent(hash: seq<Byte> -> seq<Byte>, src: Source, pieceLength: nat, n: nat)
    requires Serves(src) && pieceLength > 0 && n <= PieceCount(|SourceBytes(src)|, pieceLength)
    ensures DigestTable(hash, src, |SourceBytes(src)|, pieceLength, n) == PieceTable(hash, SourceBytes(src), pieceLength, n)
  {
    hide PieceCount, PieceLength, SourceBytes, Serves, ReadInto;
    if n > 0 {
      DigestsOfContent(hash, src, pieceLength, n - 1);
      var total := |SourceBytes(src)|;
      PieceBounds(total, pieceLength, n - 1);
      ReadServed(src, (n - 1) * pieceLength, PieceLength(total, pieceLength, n - 1),
                 BufferAfter(src, total, pieceLength, n - 1));
    }
  }

  /** Where the first visited file of a piece is missing, the bytes of the piece before are hashed again. */
  lemma StaleHashed(src: Source, total: nat, pieceLength: nat, i: nat, m: nat)
    requires src.DirSource? && pieceLength > 0 && 0 < i < PieceCount(total, pieceLength)
    requires var len := PieceLength(total, pieceLength, i);
             m < |src.entries| && MissingEntry(src.root, src.entries, m, i * pieceLength, len)
             && forall j :: 0 <= j < m ==> !VisitedEntry(src.entries, j, i * pieceLength, len)
    ensures Hashed(src, total, pieceLength, i)
            == Hashed(src, total, pieceLength, i - 1)[..PieceLength(total, pieceLength, i)]
  {
    hide VisitedEntry, Open, Reading;
    var len := PieceLength(total, pieceLength, i);
    PieceBounds(total, pieceLength, i);
    PieceBefore(total, pieceLength, i);
    FoundMissing(src.root, src.entries, m, i * pieceLength, len);
    NoneVisited(src.root, src.entries, m, i * pieceLength, len, BufferAfter(src, total, pieceLength, i));
  }

  lemma PieceBefore(total: nat, pieceLength: nat, i: nat)
    requires pieceLength > 0 && 0 < i < PieceCount(total, pieceLength)
    ensures PieceLength(total, pieceLength, i - 1) == pieceLength
  {
  }

  lemma {:induction false} NoneVisited(root: Node, entries: seq<Entry>, i: nat, offset: nat, len: nat, before: seq<Byte>)
    requires i <= |entries| && len <= |before|
    requires forall j :: 0 <= j < i ==> !VisitedEntry(entries, j, offset, len)
    ensures Reading(root, entries, i, offset, len, before) == before
  {
    hide Open, Visited;
    if i > 0 {
      NoneVisited(root, entries, i - 1, offset, len, before);
      assert !VisitedEntry(entries, i - 1, offset, len);
    }
  }

  /** No listed file is there. */
  predicate NothingThere(src: Source) {
    match src
    case FileSource(file) => file.None?
    case DirSource(root, entries) => forall i :: 0 <= i < |entries| ==> Open(root, entries[i].path).None?
  }

  /** Then every read leaves the buffer as it was, and zeros are hashed. */
  lemma {:induction false} ZerosHashed(src: Source, total: nat, pieceLength: nat, n: nat)
    requires NothingThere(src) && pieceLength > 0 && n <= PieceCount(total, pieceLength)
    ensures BufferAfter(src, total, pieceLength, n) == Zeros(pieceLength)
    ensures n > 0 ==> Hashed(src, total, pieceLength, n - 1) == Zeros(PieceLength(total, pieceLength, n - 1))
  {
    hide PieceCount, PieceLength, Reading, Open;
    if n > 0 {
      ZerosHashed(src, total, pieceLength, n - 1);
      PieceBounds(total, pieceLength, n - 1);
      if src.DirSource? {
        var offset, len := (n - 1) * pieceLength, PieceLength(total, pieceLength, n - 1);
        var m := FirstMissing(src.root, src.entries, |src.entries|, offset, len);
        NothingRead(src.root, src.entries, m, offset, len, Zeros(pieceLength));
      }
    }
  }

  lemma {:induction false} NothingRead(root: Node, entries: seq<Entry>, i: nat, offset: nat, len: nat, before: seq<Byte>)
    requires i <= |entries| && len <= |before|
    requires forall j :: 0 <= j < |entries| ==> Open(root, entries[j].path).None?
    ensures Reading(root, entries, i, offset, len, before) == before
  {
    hide Open;
    if i > 0 {
      NothingRead(root, entries, i - 1, offset, len, before);
    }
  }

  function FileListOf(node: Node): FileList {
    match node
    case File(content) => Single(|content|)
    case Dir(items) => Multi(Listing(items, []))
    case Gone => Single(0)
  }

  /** The directory a `TorrentDirectoryStream` works in; its constructor creates a missing one. */
  function DirAt(root: Node, p: Path): Node {
    match At(root, p)
    case Some(node) => node
    case None => Dir(End)
  }

  /** `GetStreamFromFilesystem(path.GetParent())`: the path is put together again from parent and name. */
  function SourceAt(root: Node, path: Paths.VFSPath, files: FileList): Source {
    var q := Paths.Rejoined(path).path;
    match files
    case Single(_) => FileSource(Open(root, q))
    case Multi(entries) => DirSource(DirAt(root, q), entries)
  }

  /** Every name below the node is proper. */
  predicate Listable(node: Node) {
    node.Dir? ==> ProperNames(node.items)
  }

  /** The casts do no harm to any piece of the tree. */
  predicate Addressable(node: Node, pieceLength: nat)
    requires pieceLength > 0
  {
    node.Dir? ==> PiecesFit(Listing(node.items, []), |Flat(node.items)|, pieceLength)
  }

  /** When the path survives being taken apart, the source serves the bytes of the tree that was listed. */
  lemma SourceServes(root: Node, path: Paths.VFSPath, node: Node)
    requires At(root, path.path) == Some(node) && !node.Gone? && Listable(node)
    requires Paths.Rejoined(path).path == path.path
    ensures Serves(SourceAt(root, path, FileListOf(node)))
    ensures SourceBytes(SourceAt(root, path, FileListOf(node))) == FlatOf(node)
  {
    hide Paths.Rejoined;
    if node.Dir? {
      ListingServes(node.items);
    }
  }

  /**
   * A drive root is listed at `C:/` and hashed at `C:/C:`; where nothing of that name
   * exists, zeros are hashed for every piece.
   */
  lemma DriveRootHashesZeros(root: Node, path: Paths.VFSPath, total: nat, pieceLength: nat, i: nat)
    requires Paths.IsDriveRoot(path) && Paths.Component(path.path[0])
    requires At(root, path.path).Some? && At(root, path.path).value.Dir?
    requires At(root, [path.path[0], path.path[0]]).None?
    requires pieceLength > 0 && i < PieceCount(total, pieceLength)
    ensures var src := SourceAt(root, path, FileListOf(At(root, path.path).value));
            Hashed(src, total, pieceLength, i) == Zeros(PieceLength(total, pieceLength, i))
  {
    hide Hashed, Paths.Rejoined, PieceCount, PieceLength;
    Paths.RejoinDriveRoot(path);
    ZerosHashed(SourceAt(root, path, FileListOf(At(root, path.path).value)), total, pieceLength, i + 1);
  }

  /** Replacing the slot of digest `i` in data whose first `i` slots are done. */
  lemma SlotDone(table: seq<Byte>, data: seq<Byte>, i: nat, digest: seq<Byte>)
    requires |digest| == DIGEST && |table| == DIGEST * i && DIGEST * (i + 1) <= |data|
    requires data[..DIGEST * i] == table
    ensures var data' := data[..DIGEST * i] + digest + data[DIGEST * (i + 1)..];
            |data'| == |data| && data'[..DIGEST * (i + 1)] == table + digest
  {
  }

  class TorrentFileInfo {
    var name: string
    var isPrivate: bool
    var pieceLength: nat
    var pieces: seq<Byte>
    var files: FileList

    constructor ()
      ensures files == Single(0) && pieces == [] && pieceLength == 524288 && !isPrivate
    {
      name, isPrivate, pieceLength, pieces, files := "", false, 524288, [], Single(0);
    }

    /** `GetTorrentFileSize`. */
    method GetTorrentFileSize() returns (no: nat)
      ensures no == match files case Single(n) => n case Multi(es) => Total(es)
    {
      match files {
        case Single(n) => no := n;
        case Multi(es) =>
          no := 0;
          for i := 0 to |es|
            invariant no == Start(es, i)
          {
            no := no + es[i].length;
          }
      }
    }

    /** `ParsePieces`: overwrite the digests, reusing one buffer; the answers of the reads are ignored. */
    method ParsePieces(src: Source, flength: nat, hash: seq<Byte> -> seq<Byte>)
      requires IsHash(hash) && 0 < pieceLength
      requires src.DirSource? ==> PiecesFit(src.entries, flength, pieceLength)
      requires |pieces| == DIGEST * PieceCount(flength, pieceLength)
      modifies this`pieces
      ensures pieces == DigestTable(hash, src, flength, pieceLength, PieceCount(flength, pieceLength))
      ensures Serves(src) && flength == |SourceBytes(src)|
              ==> pieces == PieceTable(hash, SourceBytes(src), pieceLength, PieceCount(flength, pieceLength))
    {
      hide Serves, PieceCount, PieceLength, SourceBytes, AllFit, ReadInto;
      var count := |pieces| / DIGEST;
      var buffer := new Byte[pieceLength](_ => 0);
      assert buffer[..] == Zeros(pieceLength);
      var i := 0;
      while i < count
        invariant i <= count == PieceCount(flength, pieceLength) && |pieces| == DIGEST * count
        invariant buffer[..] == BufferAfter(src, flength, pieceLength, i)
        invariant pieces[..DIGEST * i] == DigestTable(hash, src, flength, pieceLength, i)
      {
        PieceBounds(flength, pieceLength, i);
        var len := PieceLength(flength, pieceLength, i);
        ReadSource(src, i * buffer.Length, buffer, len);
        var hsh := hash(buffer[..len]);
        assert buffer[..len] == Hashed(src, flength, pieceLength, i);
        DigestEntry(hash, src, flength, pieceLength, i, 0);
        SlotDone(DigestTable(hash, src, flength, pieceLength, i), pieces, i, hsh);
        pieces := pieces[..DIGEST * i] + hsh + pieces[DIGEST * (i + 1)..];
        i := i + 1;
      }
      if Serves(src) && flength == |SourceBytes(src)| {
        DigestsOfContent(hash, src, pieceLength, count);
      }
    }

    /** `CreateFromFilesystem` on the filesystem `root`; false stands for the exception about a missing path. */
    method CreateFromFilesystem(root: Node, path: Paths.VFSPath, priv: bool, length: nat, hash: seq<Byte> -> seq<Byte>)
      returns (ok: bool)
      requires IsHash(hash) && 0 < length
      requires At(root, path.path).Some? ==> Addressable(At(root, path.path).value, length)
      modifies this
      ensures ok <==> At(root, path.path).Some? && !At(root, path.path).value.Gone?
      ensures name == Paths.GetFileName(path) && isPrivate == priv && pieceLength == length
      ensures !ok ==> pieces == [] && files == old(files)
      ensures ok ==> var node := At(root, path.path).value;
                     files == FileListOf(node)
                     && var n := PieceCount(|FlatOf(node)|, length);
                        pieces == DigestTable(hash, SourceAt(root, path, files), |FlatOf(node)|, length, n)
                        && (Listable(node) && Paths.Rejoined(path).path == path.path
                            ==> pieces == PieceTable(hash, FlatOf(node), length, n))
    {
      hide PieceCount, Serves, PiecesFit, Paths.Rejoined, Paths.GetFileName, DigestTable, PieceTable, SourceAt;
      isPrivate, pieceLength, pieces, name := priv, length, [], Paths.GetFileName(path);
      var len;
      match At(root, path.path) {
        case Some(File(content)) =>
          len := |content|;
          files := Single(len);
        case Some(Dir(items)) =>
          var crawler := new Crawler();
          crawler.Crawl(items, []);
          files := Multi(crawler.ents);
          len := crawler.len;
          assert crawler.ents == Listing(items, []);
        case _ =>
          return false;
      }
      ghost var node := At(root, path.path).value;
      pieces := seq(DIGEST * PieceCount(len, length), _ => 0);
      if Listable(node) && Paths.Rejoined(path).path == path.path {
        SourceServes(root, path, node);
      }
      SourceKind(root, path, files);
      ParsePieces(SourceAt(root, path, files), len, hash);
      ok := true;
    }
  }

  lemma SourceKind(root: Node, path: Paths.VFSPath, files: FileList)
    ensures var src := SourceAt(root, path, files);
            src.DirSource? ==> files.Multi? && src.entries == files.entries
  {
  }

  /** The size computed from the listing is the number of bytes listed. */
  lemma ListedSize(node: Node)
    requires Listable(node) && !node.Gone?
    ensures (match FileListOf(node) case Single(n) => n case Multi(es) => Total(es)) == |FlatOf(node)|
  {
    if node.Dir? {
      ListingServes(node.items);
    }
  }
}
