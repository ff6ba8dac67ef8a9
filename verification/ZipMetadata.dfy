/** The metadata snapshot of an archive being opened (archive_zip_reader.go): what was admitted is
    frozen, whatever the source does later. */
module ZipMetadata {
  import opened Common
  import opened ZipBudget

  type Byte = x: int | 0 <= x < 256
  type Bytes = seq<Byte>

  const PAGE: nat := 64 * 1024

  datatype Error = EndOfFile | UnexpectedEof | CancelledRead | Format | OverLimit | Broken

  const DIRECTORY_HEADER := 0x02014b50
  const DIRECTORY_END := 0x06054b50
  const DIRECTORY_END_64 := 0x06064b50
  const LOCATOR_64 := 0x07064b50

  // binary.LittleEndian
  function LE(b: Bytes, at: nat, n: nat): nat
    requires at + n <= |b|
    decreases n
  {
    if n == 0 then 0 else b[at] + 256 * LE(b, at + 1, n - 1)
  }

  // An io.ReaderAt. An honest one holds data and never changes; any other may return anything, each
  // time anew, but never more than was asked for.
  class Source {
    const honest: bool
    const data: Bytes

    constructor (honest: bool, data: Bytes)
      ensures this.honest == honest && this.data == data
    {
      this.honest, this.data := honest, data;
    }

    method ReadAt(length: nat, offset: nat) returns (out: Bytes, e: Option<Error>)
      ensures |out| <= length
      ensures honest ==> out == Direct(data, length, offset) && e == if |out| < length then Some(EndOfFile) else None
    {
      var noise: Bytes, failure: Option<Error> := *, *;
      if honest {
        out := Direct(data, length, offset);
        e := if |out| < length then Some(EndOfFile) else None;
      } else {
        out, e := if |noise| <= length then noise else noise[..length], failure;
      }
    }
  }

  // The bytes of a span, as far as there are any.
  function Direct(data: Bytes, length: nat, offset: nat): Bytes
  {
    if offset >= |data| then [] else if offset + length <= |data| then data[offset..offset + length] else data[offset..]
  }

  function Flatten(pages: seq<Bytes>): Bytes
  {
    if pages == [] then [] else Flatten(pages[..|pages| - 1]) + pages[|pages| - 1]
  }

  ghost predicate FullPages(pages: seq<Bytes>)
  {
    forall p <- pages :: |p| == PAGE
  }

  lemma {:induction false} FlattenLength(pages: seq<Bytes>)
    requires FullPages(pages)
    ensures |Flatten(pages)| == |pages| * PAGE
  {
    if pages != [] {
      assert pages[|pages| - 1] in pages;
      FlattenLength(pages[..|pages| - 1]);
    }
  }

  lemma {:induction false} FlattenAt(pages: seq<Bytes>, i: nat)
    requires FullPages(pages) && i < |pages|
    ensures (i + 1) * PAGE <= |Flatten(pages)| && Flatten(pages)[i * PAGE..(i + 1) * PAGE] == pages[i]
  {
    var init := pages[..|pages| - 1];
    FlattenLength(pages);
    FlattenLength(init);
    if i < |init| {
      FlattenAt(init, i);
    }
  }

  // zipMetadataRegion: either flat, or in pages of which the last may be partly used.
  datatype Region = Region(offset: nat, data: Option<Bytes>, pages: seq<Bytes>, length: nat) {
    ghost predicate Valid()
    {
      if data.Some? then |data.value| == length else FullPages(pages) && length <= |Flatten(pages)|
    }

    // What the snapshot holds, from offset on.
    ghost function Content(): (c: Bytes)
      requires Valid()
      ensures |c| == length
    {
      if data.Some? then data.value else Flatten(pages)[..length]
    }

    predicate Covers(at: nat)
    {
      at >= offset && at - offset < length
    }

    ghost function At(at: nat): Byte
      requires Valid() && Covers(at)
    {
      Content()[at - offset]
    }
  }

  lemma PageOf(rel: nat, n: nat)
    requires rel < n * PAGE
    ensures rel / PAGE < n && rel % PAGE < PAGE && rel == rel / PAGE * PAGE + rel % PAGE
  {
  }

  ghost predicate AllValid(regions: seq<Region>)
  {
    forall r <- regions :: r.Valid()
  }

  // Wherever two regions overlap they hold the same bytes.
  ghost predicate Agree(regions: seq<Region>)
    requires AllValid(regions)
  {
    forall r, s, at: nat :: r in regions && s in regions && r.Covers(at) && s.Covers(at) ==> r.At(at) == s.At(at)
  }

  predicate Covered(regions: seq<Region>, at: nat)
  {
    exists r <- regions :: r.Covers(at)
  }

  // out is what the snapshot holds, wherever it holds anything.
  ghost predicate Frozen(regions: seq<Region>, offset: nat, out: Bytes)
    requires AllValid(regions)
  {
    forall at: nat, r :: offset <= at < offset + |out| && r in regions && r.Covers(at) ==> out[at - offset] == r.At(at)
  }

  // The snapshot of an honest source is a piece of it.
  ghost predicate Genuine(regions: seq<Region>, data: Bytes)
    requires AllValid(regions)
  {
    forall r <- regions :: PieceOf(r, data)
  }

  ghost predicate PieceOf(r: Region, data: Bytes)
    requires r.Valid()
  {
    r.offset + r.length <= |data| && r.Content() == data[r.offset..r.offset + r.length]
  }

  // The bytes a region keeps in memory.
  function Held(r: Region): nat
  {
    if r.data.Some? then r.length else PAGE * |r.pages|
  }

  function HeldAll(regions: seq<Region>): nat
  {
    if regions == [] then 0 else HeldAll(regions[..|regions| - 1]) + Held(regions[|regions| - 1])
  }

  // Pages of memory that so many bytes take, and what more bytes after some are charged for pages.
  function Pages(length: nat): nat
  {
    (length + PAGE - 1) / PAGE
  }

  const PAGE_CHARGE: nat := PAGE + 96

  function PageCharge(length: nat, more: nat): nat
  {
    PagesGrow(length, more);
    PAGE_CHARGE * (Pages(length + more) - Pages(length))
  }

  lemma PagesGrow(length: nat, more: nat)
    ensures Pages(length) <= Pages(length + more)
  {
  }

  lemma PageChargeSum(length: nat, a: nat, b: nat)
    ensures PageCharge(length, a) + PageCharge(length + a, b) == PageCharge(length, a + b)
  {
  }

  // ----- what a central directory is -----

  function Variable(header: Bytes): nat
    requires |header| >= 46
  {
    LE(header, 28, 2) + LE(header, 30, 2) + LE(header, 32, 2)
  }

  // One whole directory record.
  predicate IsRecord(c: Bytes)
  {
    |c| >= 46 && LE(c, 0, 4) == DIRECTORY_HEADER && |c| == 46 + Variable(c)
  }

  // Whole records, one after another.
  predicate Records(c: Bytes)
    decreases |c|
  {
    c == [] || (|c| >= 46 && 46 + Variable(c) <= |c| && IsRecord(c[..46 + Variable(c)]) && Records(c[46 + Variable(c)..]))
  }

  // What ends them: 46 bytes that are no record, or fewer at the end of the file.
  predicate Stops(c: Bytes, atEnd: bool)
  {
    if |c| < 46 then atEnd else |c| == 46 && LE(c, 0, 4) != DIRECTORY_HEADER
  }

  // A directory as it is snapshot: all its records, and what follows them.
  ghost predicate IsCatalog(r: Region, at: nat, size: nat)
    requires r.Valid()
  {
    r.data.None? && r.offset == at && at + r.length <= size
    && exists k: nat :: k <= r.length && Records(r.Content()[..k]) && Stops(r.Content()[k..], at + r.length == size)
  }

  // The same walk over the bytes of a file: where the records end, whether one is cut off, and what the
  // entries cost.
  predicate StopsAt(data: Bytes, at: nat)
    requires at <= |data|
  {
    |data| - at < 46 || LE(data[at..at + 46], 0, 4) != DIRECTORY_HEADER
  }

  function VariableAt(data: Bytes, at: nat): nat
    requires at + 46 <= |data|
  {
    Variable(data[at..at + 46])
  }

  predicate CutAt(data: Bytes, at: nat)
    requires at <= |data|
  {
    !StopsAt(data, at) && at + 46 + VariableAt(data, at) > |data|
  }

  // How far one round takes the walk, and what it is charged for the entry.
  function StepLength(data: Bytes, at: nat): nat
    requires at <= |data|
  {
    if !StopsAt(data, at) then 46 + VariableAt(data, at) else if |data| - at < 46 then |data| - at else 46
  }

  function EntryCharge(data: Bytes, at: nat): nat
    requires at <= |data|
  {
    if StopsAt(data, at) then 0 else 512 + 3 * VariableAt(data, at)
  }

  // Where the catalog that begins at a position ends, unless a record in it is cut off.
  function CatalogEnd(data: Bytes, at: nat): (end: Option<nat>)
    requires at <= |data|
    ensures end.Some? ==> at <= end.value <= |data|
    decreases |data| - at
  {
    if CutAt(data, at) then None
    else if StopsAt(data, at) then Some(at + StepLength(data, at))
    else CatalogEnd(data, at + StepLength(data, at))
  }

  function EntryCharges(data: Bytes, at: nat): nat
    requires at <= |data|
    decreases |data| - at
  {
    if StopsAt(data, at) || CutAt(data, at) then 0
    else EntryCharge(data, at) + EntryCharges(data, at + StepLength(data, at))
  }

  lemma WalkStep(data: Bytes, at: nat)
    requires at <= |data|
    ensures CutAt(data, at) ==> CatalogEnd(data, at).None?
    ensures !CutAt(data, at) ==> at + StepLength(data, at) <= |data|
    ensures !CutAt(data, at) && StopsAt(data, at) ==>
              CatalogEnd(data, at) == Some(at + StepLength(data, at)) && EntryCharges(data, at) == EntryCharge(data, at) == 0
    ensures !CutAt(data, at) && !StopsAt(data, at) ==>
              && CatalogEnd(data, at) == CatalogEnd(data, at + StepLength(data, at))
              && EntryCharges(data, at) == EntryCharge(data, at) + EntryCharges(data, at + StepLength(data, at))
  {
  }

  predicate Whole(data: Bytes, at: nat)
  {
    at <= |data| && CatalogEnd(data, at).Some?
  }

  // A catalog is charged for its entries and for the pages that hold it.
  function CatalogCharge(data: Bytes, at: nat): nat
    requires Whole(data, at)
  {
    EntryCharges(data, at) + PageCharge(0, CatalogEnd(data, at).value - at)
  }

  ghost predicate Catalogued(regions: seq<Region>, at: nat, size: nat)
    requires AllValid(regions)
  {
    exists r <- regions :: IsCatalog(r, at, size)
  }

  lemma {:induction false} LEPrefix(a: Bytes, b: Bytes, at: nat, n: nat)
    requires at + n <= |a| && a <= b
    ensures LE(a, at, n) == LE(b, at, n)
    decreases n
  {
    if n > 0 {
      LEPrefix(a, b, at + 1, n - 1);
    }
  }

  lemma SameHeader(a: Bytes, b: Bytes)
    requires |a| >= 46 && a <= b
    ensures Variable(a) == Variable(b) && LE(a, 0, 4) == LE(b, 0, 4)
  {
    LEPrefix(a, b, 28, 2);
    LEPrefix(a, b, 30, 2);
    LEPrefix(a, b, 32, 2);
    LEPrefix(a, b, 0, 4);
  }

  // Records are closed under one more.
  lemma {:induction false} RecordsAppend(c: Bytes, record: Bytes)
    requires Records(c) && IsRecord(record)
    ensures Records(c + record)
    decreases |c|
  {
    hide LE;
    if c == [] {
      assert c + record == record;
      assert record[..46 + Variable(record)] == record && record[46 + Variable(record)..] == [];
    } else {
      var n := 46 + Variable(c);
      SameHeader(c, c + record);
      RecordsAppend(c[n..], record);
      assert (c + record)[..n] == c[..n] && (c + record)[n..] == c[n..] + record;
    }
  }

  // ----- the end records -----

  function TailSize(size: nat): nat
  {
    if size < 65 * 1024 then size else 65 * 1024
  }

  // The end record a bounded backwards search finds: the last signature, if its comment fits.
  predicate EndRecord(tail: Bytes, p: nat)
  {
    && p + 22 <= |tail| && LE(tail, p, 4) == DIRECTORY_END && p + 22 + LE(tail, p + 20, 2) <= |tail|
    && forall j: nat :: p < j && j + 22 <= |tail| ==> LE(tail, j, 4) != DIRECTORY_END
  }

  // Entries, directory size and directory offset as declared, and where the declaring record lies.
  datatype Declared = Declared(count: nat, size: nat, offset: nat, end: nat)

  function EndDeclares(tail: Bytes, p: nat, end: nat): Declared
    requires p + 22 <= |tail|
  {
    Declared(LE(tail, p + 10, 2), LE(tail, p + 12, 4), LE(tail, p + 16, 4), end)
  }

  // A value too large for its field, so that a ZIP64 record may declare it.
  predicate Escapes(d: Declared)
  {
    d.count == 0xffff || d.size == 0xffff_ffff || d.offset == 0xffff_ffff
  }

  function RecordDeclares(record: Bytes, at: nat): Declared
    requires |record| == 56
  {
    Declared(LE(record, 32, 8), LE(record, 40, 8), LE(record, 48, 8), at)
  }

  // A frozen ZIP64 end record that declares this.
  predicate FromRecord(r: Region, d: Declared)
  {
    r.data.Some? && |r.data.value| == 56 && LE(r.data.value, 0, 4) == DIRECTORY_END_64 && d == RecordDeclares(r.data.value, r.offset)
  }

  // What the bytes of a file say, read as a parser reads them.
  function Tail(data: Bytes): (tail: Bytes)
    ensures |tail| == TailSize(|data|)
  {
    data[|data| - TailSize(|data|)..]
  }

  // Where the end record at p of the tail lies in the file.
  function EndAt(data: Bytes, p: nat): nat
    requires p <= TailSize(|data|)
  {
    |data| - TailSize(|data|) + p
  }

  // The ZIP64 record: no locator points to one; or to one that is out of range or no such record; or to one.
  datatype Search = Absent | Unsound | At(at: nat)

  function Zip64At(data: Bytes, end: nat): Search
    requires end <= |data|
  {
    if end < 20 then Absent else
    var locator := data[end - 20..end];
    if LE(locator, 0, 4) != LOCATOR_64 || LE(locator, 4, 4) != 0 || LE(locator, 16, 4) != 1 then Absent else
    var at := LE(locator, 8, 8);
    if |data| < 56 || at > |data| - 56 || LE(data[at..at + 56], 0, 4) != DIRECTORY_END_64 then Unsound else At(at)
  }

  function Declaration(data: Bytes, p: nat): Option<Declared>
    requires p + 22 <= TailSize(|data|)
  {
    var here := EndDeclares(Tail(data), p, EndAt(data, p));
    if !Escapes(here) then Some(here) else
    match Zip64At(data, EndAt(data, p))
    case Absent => Some(here)
    case Unsound => None
    case At(at) => Some(RecordDeclares(data[at..at + 56], at))
  }

  // A ZIP64 record that is used is charged for.
  function RecordCharge(data: Bytes, p: nat): nat
    requires p + 22 <= TailSize(|data|)
  {
    if Escapes(EndDeclares(Tail(data), p, EndAt(data, p))) && Zip64At(data, EndAt(data, p)).At? then 56 else 0
  }

  // A directory that lies where it is declared, in both places a parser may look, with no record cut off.
  predicate Lies(data: Bytes, d: Declared)
  {
    d.size <= d.end && d.offset <= |data| && Whole(data, d.end - d.size) && (d.end - d.size > d.offset ==> Whole(data, d.offset))
  }

  function DirectoryCharge(data: Bytes, d: Declared): nat
    requires Lies(data, d)
  {
    512 * d.count + CatalogCharge(data, d.end - d.size) + if d.end - d.size > d.offset then CatalogCharge(data, d.offset) else 0
  }

  // The file has an end record; what it declares, or a sound ZIP64 record in its place, lies in the file.
  predicate Sound(data: Bytes, p: nat, d: Declared)
  {
    EndRecord(Tail(data), p) && Declaration(data, p) == Some(d) && Lies(data, d)
  }

  function MetadataCharge(data: Bytes, p: nat, d: Declared): nat
    requires Sound(data, p, d)
  {
    TailSize(|data|) + RecordCharge(data, p) + DirectoryCharge(data, d)
  }

  lemma OneEnd(tail: Bytes, p: nat, q: nat)
    requires EndRecord(tail, p) && EndRecord(tail, q)
    ensures p == q
  {
  }

  // A file is sound in one way at most.
  lemma OneWay(data: Bytes, p: nat, d: Declared, q: nat, d': Declared)
    requires Sound(data, p, d) && Sound(data, q, d')
    ensures p == q && d == d'
  {
    OneEnd(Tail(data), p, q);
  }

  ghost predicate DeclaredBy(regions: seq<Region>, tail: Bytes, p: nat, end: nat, d: Declared)
    requires p + 22 <= |tail|
  {
    d == EndDeclares(tail, p, end) || (Escapes(EndDeclares(tail, p, end)) && exists r <- regions :: FromRecord(r, d))
  }

  // The directory is snapshot where its size says it begins, and where its offset says.
  ghost predicate BothCatalogued(regions: seq<Region>, d: Declared, size: nat)
    requires AllValid(regions)
  {
    d.size <= d.end && d.offset <= size && Catalogued(regions, d.end - d.size, size)
    && (d.end - d.size > d.offset ==> Catalogued(regions, d.offset, size))
  }

  ghost predicate AdmittedAs(regions: seq<Region>, size: nat, tail: Bytes, p: nat, d: Declared)
    requires AllValid(regions)
  {
    var tailSize := TailSize(size);
    && |regions| > 0 && regions[0] == Region(size - tailSize, Some(tail), [], tailSize)
    && EndRecord(tail, p) && DeclaredBy(regions, tail, p, size - tailSize + p, d) && BothCatalogued(regions, d, size)
  }

  // The frozen tail has an end record, and the directories it or a frozen ZIP64 record declares are frozen.
  // What was paid covers the bytes held and 512 bytes for every entry declared.
  ghost predicate Admitted(regions: seq<Region>, size: nat, paid: int)
    requires AllValid(regions)
  {
    exists tail, p, d :: AdmittedAs(regions, size, tail, p, d) && HeldAll(regions) + 512 * d.count <= paid
  }

  lemma TailCovered(regions: seq<Region>, size: nat, tail: Bytes, p: nat, d: Declared)
    requires AllValid(regions) && AdmittedAs(regions, size, tail, p, d)
    ensures forall at: nat :: size <= at + 65 * 1024 && at < size ==> Covered(regions, at)
  {
    forall at: nat | size <= at + 65 * 1024 && at < size
      ensures Covered(regions, at)
    {
      assert regions[0] in regions && regions[0].Covers(at);
    }
  }

  class MetadataReader {
    const source: Source
    const hasCancel: bool
    const budget: Budget
    var regions: seq<Region>
    var charged: nat

    constructor (source: Source, hasCancel: bool, budget: Budget)
      ensures this.source == source && this.hasCancel == hasCancel && this.budget == budget && regions == [] && charged == 0
    {
      this.source, this.hasCancel, this.budget, regions, charged := source, hasCancel, budget, [], 0;
    }

    ghost predicate Valid()
      reads this`regions
    {
      AllValid(regions) && Agree(regions)
    }

    // Looks for the first region holding the position; otherwise says how far none of them reaches.
    method Find(offset: nat, length: nat) returns (found: Option<Region>, limit: nat)
      requires Valid() && length > 0
      ensures found.Some? ==> found.value in regions && found.value.Covers(offset)
      ensures found.None? ==> 0 < limit <= length && forall at :: offset <= at < offset + limit ==> !Covered(regions, at)
      ensures found.None? ==> limit == length || exists r <- regions :: r.offset == offset + limit
    {
      limit := length;
      for i := 0 to |regions|
        invariant 0 < limit <= length
        invariant forall j, at :: 0 <= j < i && offset <= at < offset + limit ==> !regions[j].Covers(at)
        invariant limit == length || exists r <- regions :: r.offset == offset + limit
      {
        var region := regions[i];
        if region.Covers(offset) {
          return Some(region), limit;
        }
        if region.offset > offset && region.offset - offset < limit {
          limit := region.offset - offset;
        }
      }
      found := None;
    }

    // The bytes come from the snapshot wherever it reaches, from the source elsewhere; over a source
    // that does not change the two are the same.
    method ReadAt(length: nat, offset: nat) returns (out: Bytes, e: Option<Error>)
      requires Valid()
      ensures |out| <= length && (e.None? ==> |out| == length) && Frozen(regions, offset, out)
      ensures source.honest && Genuine(regions, source.data) && !hasCancel ==>
                out == Direct(source.data, length, offset) && e == if |out| < length then Some(EndOfFile) else None
    {
      var cancelled := Attempt();
      if hasCancel && cancelled {
        return [], Some(CancelledRead);
      }
      out, e := [], None;
      while |out| < length
        invariant |out| <= length && Frozen(regions, offset, out) && e.None?
        invariant source.honest && Genuine(regions, source.data) ==> out == Direct(source.data, |out|, offset)
      {
        var piece: Bytes;
        piece, e := ReadPiece(length - |out|, offset + |out|);
        FrozenAppend(regions, offset, out, piece);
        DirectAppend(source.data, offset, |out|, |piece|, length);
        out := out + piece;
        if e.Some? {
          return;
        }
      }
    }

    // One round: from the region that holds the position, or else up to the next region.
    method ReadPiece(length: nat, offset: nat) returns (piece: Bytes, e: Option<Error>)
      requires Valid() && length > 0
      ensures |piece| <= length && (e.None? ==> |piece| > 0) && Frozen(regions, offset, piece)
      ensures source.honest && Genuine(regions, source.data) ==>
                piece == Direct(source.data, |piece|, offset)
                && (e.Some? ==> e == Some(EndOfFile) && offset + |piece| >= |source.data| && |piece| < length)
    {
      var found, limit := Find(offset, length);
      if found.Some? {
        piece := CopyCached(found.value, offset, length);
        FromRegion(regions, found.value, offset, piece, source.data);
        return piece, None;
      }
      piece, e := source.ReadAt(limit, offset);
      if e.None? && |piece| != limit {
        e := Some(UnexpectedEof);
      }
      forall at: nat, r | offset <= at < offset + |piece| && r in regions
        ensures !r.Covers(at)
      {
        assert r.Covers(at) ==> Covered(regions, at);
      }
    }

    // copy(data, cachedData[rel:...]): to the end of the page, the region or the request.
    method CopyCached(region: Region, offset: nat, length: nat) returns (out: Bytes)
      requires region.Valid() && region.Covers(offset) && length > 0
      ensures 0 < |out| <= length && offset - region.offset + |out| <= region.length
      ensures out == region.Content()[offset - region.offset..][..|out|]
    {
      var rel := offset - region.offset;
      var left := region.length - rel;
      if region.data.Some? {
        var count := if left <= length then left else length;
        out := region.data.value[rel..rel + count];
        return;
      }
      out := CopyPage(region.pages, region.length, rel, length);
      SliceOfTaken(Flatten(region.pages), region.length, rel, |out|);
    }

    lemma DirectIs(length: nat, offset: nat)
      requires offset + length <= |source.data|
      ensures Direct(source.data, length, offset) == source.data[offset..offset + length]
    {
    }

    // reserve: what this reader is charged for is on the budget.
    method Reserve(bytes: nat) returns (ok: bool)
      requires budget.Valid()
      modifies this`charged, budget
      ensures budget.Valid() && budget.current - charged == old(budget.current - charged)
      ensures ok == (old(budget.current) + bytes <= budget.limit) && charged == old(charged) + if ok then bytes else 0
    {
      ok := budget.Reserve(bytes);
      if ok {
        charged := charged + bytes;
      }
    }

    // A region that was read through the snapshot agrees with it.
    method Freeze(region: Region)
      requires Valid() && region.Valid() && Frozen(regions, region.offset, region.Content())
      modifies this`regions
      ensures Valid() && regions == old(regions) + [region]
      ensures old(Genuine(regions, source.data)) && PieceOf(region, source.data) ==> Genuine(regions, source.data)
    {
      AgreeAppend(regions, region);
      regions := regions + [region];
    }

    // appendBytes: page by page, each charged before it is made.
    method Append(region: Region, data: Bytes) returns (r: Region, ok: bool)
      requires Snug(region) && region.Valid() && budget.Valid()
      modifies this`charged, budget
      ensures budget.Valid() && budget.current - charged == old(budget.current - charged)
      ensures Snug(r) && r.Valid() && r.offset == region.offset
      ensures ok ==> r.Content() == region.Content() + data
      ensures charged >= old(charged) && (ok ==> charged + Held(region) >= old(charged) + Held(r))
      ensures ok <==> old(budget.current) + PageCharge(region.length, |data|) <= budget.limit
      ensures ok ==> charged == old(charged) + PageCharge(region.length, |data|)
    {
      r, ok := region, true;
      var done := 0;
      hide Snug, Flatten, FullPages, Region.Valid, Region.Content, Held, PageCharge;
      PageChargeSum(region.length, 0, |data|);
      NoPages(region.length);
      while done < |data|
        invariant done <= |data| && Snug(r) && r.Valid() && r.offset == region.offset && r.Content() == region.Content() + data[..done]
        invariant budget.Valid() && budget.current - charged == old(budget.current - charged)
        invariant charged >= old(charged) && charged + Held(region) >= old(charged) + Held(r)
        invariant charged == old(charged) + PageCharge(region.length, done) && r.length == region.length + done
      {
        var n: nat;
        ghost var before := r.length;
        PageChargeSum(region.length, done, |data| - done);
        r, n, ok := AppendPart(r, data[done..]);
        if !ok {
          return;
        }
        PageChargeSum(region.length, done, n);
        assert data[..done] + data[done..][..n] == data[..done + n];
        done := done + n;
      }
      assert data[..done] == data;
    }

    // As much as the page in use takes, or a new one.
    method AppendPart(region: Region, data: Bytes) returns (r: Region, n: nat, ok: bool)
      requires Snug(region) && region.Valid() && budget.Valid() && data != []
      modifies this`charged, budget
      ensures budget.Valid() && budget.current - charged == old(budget.current - charged)
      ensures Snug(r) && r.Valid() && r.offset == region.offset
      ensures ok ==> 0 < n <= |data| && r.Content() == region.Content() + data[..n] && r.length == region.length + n
      ensures charged >= old(charged) && (ok ==> charged + Held(region) >= old(charged) + Held(r))
      ensures ok ==> charged == old(charged) + PageCharge(region.length, n)
      ensures !ok ==> old(budget.current) + PageCharge(region.length, |data|) > budget.limit
    {
      r, n, ok := region, 0, true;
      assert region.data.None?;
      FirstPage(region.length, |data|);
      hide Snug, Flatten, FullPages, Region.Valid, Region.Content, PageCharge;
      if region.length % PAGE == 0 {
        ok := Reserve(PAGE + 96);
        if !ok {
          return;
        }
      }
      r, n := AppendSome(region, data);
      ContentLengths(region, r, data[..n]);
      SnugCharge(region, r, n);
    }

    // A page that is full at the end needs a new one for whatever comes next.
    lemma FirstPage(length: nat, more: nat)
      requires more > 0
      ensures length % PAGE == 0 ==> PageCharge(length, more) >= PAGE_CHARGE
    {
    }

    lemma ContentLengths(region: Region, r: Region, data: Bytes)
      requires region.Valid() && r.Valid() && r.Content() == region.Content() + data
      ensures r.length == region.length + |data|
    {
    }

    lemma NoPages(length: nat)
      ensures PageCharge(length, 0) == 0
    {
    }

    lemma SnugCharge(region: Region, r: Region, n: nat)
      requires Snug(region) && Snug(r) && r.length == region.length + n && |r.pages| >= |region.pages|
      ensures PageCharge(region.length, n) == PAGE_CHARGE * (|r.pages| - |region.pages|)
    {
      SnugPages(region.length, |region.pages|);
      SnugPages(r.length, |r.pages|);
    }

    // Whether what was read at a position is what an unchanging source holds there.
    ghost predicate Faithful(out: Bytes, offset: nat)
      reads this`regions
      requires Valid()
    {
      source.honest && Genuine(regions, source.data) && !hasCancel ==> out == Direct(source.data, |out|, offset)
    }

    // Appends what was read through the snapshot to the region being built.
    method AppendRead(region: Region, out: Bytes) returns (r: Region, e: Option<Error>)
      requires Valid() && Building(region) && budget.Valid()
      requires Frozen(regions, region.offset + region.length, out) && Faithful(out, region.offset + region.length)
      modifies this`charged, budget
      ensures budget.Valid() && budget.current - charged == old(budget.current - charged)
      ensures e.None? ==> Building(r) && r.offset == region.offset && r.length == region.length + |out| && r.Content() == region.Content() + out
      ensures charged >= old(charged) && (e.None? ==> charged + Held(region) >= old(charged) + Held(r))
      ensures e.None? && source.honest && Genuine(regions, source.data) && PieceOf(region, source.data) && !hasCancel ==> PieceOf(r, source.data)
      ensures e.None? <==> old(budget.current) + PageCharge(region.length, |out|) <= budget.limit
      ensures e.None? ==> charged == old(charged) + PageCharge(region.length, |out|)
    {
      var ok;
      r, ok := Append(region, out);
      if !ok {
        return r, Some(OverLimit);
      }
      hide Snug, Flatten, FullPages, Genuine, PageCharge;
      FrozenAppend(regions, region.offset, region.Content(), out);
      if source.honest && Genuine(regions, source.data) && PieceOf(region, source.data) && !hasCancel {
        PieceGrows(region, r, out, source.data);
      }
      e := None;
    }

    method Take(region: Region, length: nat) returns (r: Region, e: Option<Error>)
      requires Valid() && Building(region) && budget.Valid()
      modifies this`charged, budget
      ensures budget.Valid() && budget.current - charged == old(budget.current - charged)
      ensures e.None? ==> Building(r) && r.offset == region.offset && r.length == region.length + length && region.Content() <= r.Content()
      ensures charged >= old(charged) && (e.None? ==> charged + Held(region) >= old(charged) + Held(r))
      ensures e.None? && source.honest && Genuine(regions, source.data) && PieceOf(region, source.data) && !hasCancel ==> PieceOf(r, source.data)
      ensures e.None? ==> charged == old(charged) + PageCharge(region.length, length)
      ensures Steady() && region.offset + region.length + length <= |source.data| ==>
                (e.None? <==> old(budget.current) + PageCharge(region.length, length) <= budget.limit)
    {
      r := region;
      var out;
      out, e := ReadAt(length, region.offset + region.length);
      if e.None? {
        r, e := AppendRead(region, out);
      }
    }

    // The source is honest, the snapshot a piece of it, and nobody cancels.
    ghost predicate Steady()
      requires Valid()
      reads this`regions
    {
      source.honest && !hasCancel && Genuine(regions, source.data)
    }

    // A paged region whose bytes so far agree with the snapshot.
    ghost predicate Building(region: Region)
      requires Valid()
      reads this`regions
    {
      Snug(region) && region.Valid() && Frozen(regions, region.offset, region.Content())
    }

    // Records so far; in the end also what ends them.
    ghost predicate Collecting(region: Region, start: nat, size: nat, ended: bool)
      requires Valid()
      reads this`regions
    {
      && Building(region) && region.offset == start && start + region.length <= size
      && if ended then IsCatalog(region, start, size) else Records(region.Content())
    }

    // snapshotDirectory: one region, from start over all directory records there to what ends them.
    method SnapshotDirectory(start: nat, size: nat) returns (e: Option<Error>)
      requires Valid() && budget.Valid()
      modifies this`regions, this`charged, budget
      ensures Valid() && budget.Valid() && budget.current - charged == old(budget.current - charged)
      ensures if e.None? then |regions| == |old(regions)| + 1 && old(regions) <= regions && IsCatalog(regions[|old(regions)|], start, size)
              else regions == old(regions)
      ensures charged >= old(charged) && charged - HeldAll(regions) >= old(charged - HeldAll(regions))
      ensures old(Genuine(regions, source.data)) && source.honest && size == |source.data| && !hasCancel ==> Genuine(regions, source.data)
      ensures old(Steady()) && size == |source.data| ==>
                (e.None? <==> Whole(source.data, start) && old(budget.current) + CatalogCharge(source.data, start) <= budget.limit)
      ensures e.None? && old(Steady()) && size == |source.data| ==> charged == old(charged) + CatalogCharge(source.data, start)
    {
      if start > size {
        return Some(Format);
      }
      var region;
      region, e := Collect(start, size);
      if e.Some? {
        return;
      }
      hide IsCatalog, Genuine, PieceOf, Snug, Flatten, FullPages, Whole, CatalogCharge;
      Freeze(region);
      HeldMore(old(regions), region);
    }

    method Collect(start: nat, size: nat) returns (region: Region, e: Option<Error>)
      requires Valid() && budget.Valid() && start <= size
      modifies this`charged, budget
      ensures budget.Valid() && budget.current - charged == old(budget.current - charged)
      ensures e.None? ==> Collecting(region, start, size, true) && charged >= old(charged) + Held(region)
      ensures charged >= old(charged)
      ensures e.None? && Genuine(regions, source.data) && source.honest && size == |source.data| && !hasCancel ==> PieceOf(region, source.data)
      ensures Steady() && size == |source.data| ==>
                (e.None? <==> Whole(source.data, start) && old(budget.current) + CatalogCharge(source.data, start) <= budget.limit)
      ensures e.None? && Steady() && size == |source.data| ==> charged == old(charged) + CatalogCharge(source.data, start)
    {
      region, e := Region(start, None, [], 0), None;
      var ended := false;
      assert Collecting(region, start, size, false) && (size == |source.data| ==> PieceOf(region, source.data));
      hide Collecting, Genuine, PieceOf, Region.Content, Region.Valid, AllValid, Agree, PageCharge, CatalogEnd, EntryCharges, Steady, Walked,
           Whole, CatalogCharge, Held;
      ghost var steady := Steady() && size == |source.data|;
      ghost var spent: nat := 0;
      CollectingBound(region, start, size, false);
      NoPages(0);
      if steady {
        WalkedNone(start);
      }
      while !ended
        invariant budget.Valid() && budget.current - charged == old(budget.current - charged)
        invariant Collecting(region, start, size, ended) && region.length <= size && charged >= old(charged) + Held(region) && e.None?
        invariant Genuine(regions, source.data) && source.honest && size == |source.data| && !hasCancel ==> PieceOf(region, source.data)
        invariant steady ==> Walked(start, region.length, ended, spent) && charged == old(charged) + spent + PageCharge(0, region.length)
        decreases if ended then 0 else 1, size - region.length
      {
        ended, region, e, spent := CollectStep(region, start, size, spent);
        if e.Some? {
          return;
        }
        CollectingBound(region, start, size, ended);
      }
      if steady {
        WalkedAll(start, region.length, spent);
      }
    }

    // One round, with what it adds to the walk.
    method CollectStep(region: Region, start: nat, size: nat, ghost before: nat) returns (ended: bool, r: Region, e: Option<Error>, ghost spent: nat)
      requires Valid() && budget.Valid() && Collecting(region, start, size, false)
      requires Steady() && size == |source.data| ==> Walked(start, region.length, false, before)
      modifies this`charged, budget
      ensures budget.Valid() && budget.current - charged == old(budget.current - charged)
      ensures e.None? ==> Collecting(r, start, size, ended) && (!ended ==> region.length < r.length)
      ensures charged >= old(charged) && (e.None? ==> charged + Held(region) >= old(charged) + Held(r))
      ensures e.None? && source.honest && Genuine(regions, source.data) && PieceOf(region, source.data) && !hasCancel ==> PieceOf(r, source.data)
      ensures e.None? && Steady() && size == |source.data| ==>
                Walked(start, r.length, ended, spent) && charged - spent - PageCharge(0, r.length) == old(charged) - before - PageCharge(0, region.length)
      ensures e.Some? && Steady() && size == |source.data| && Whole(source.data, start) ==>
                CatalogCharge(source.data, start) + old(budget.current) - before - PageCharge(0, region.length) > budget.limit
    {
      hide Collecting, Genuine, PieceOf, Region.Content, Region.Valid, AllValid, Agree, PageCharge, CatalogEnd, EntryCharges, Steady,
           StopsAt, CutAt, StepLength, EntryCharge, Whole, CatalogCharge, Held, Walked;
      spent := before;
      ended, r, e := CollectNext(region, start, size);
      if Steady() && size == |source.data| {
        if e.Some? {
          StepCharges(start, region.length, before, budget.limit - old(budget.current));
        } else {
          PageChargeSum(0, region.length, r.length - region.length);
          WalkedMore(start, region.length, before);
          spent := before + EntryCharge(source.data, start + region.length);
        }
      }
    }

    lemma WalkedNone(start: nat)
      requires start <= |source.data|
      ensures Walked(start, 0, false, 0)
    {
    }

    lemma WalkedMore(start: nat, length: nat, spent: nat)
      requires Walked(start, length, false, spent) && !CutAt(source.data, start + length)
      ensures var at := start + length;
              Walked(start, length + StepLength(source.data, at), StopsAt(source.data, at), spent + EntryCharge(source.data, at))
    {
      WalkStep(source.data, start + length);
    }

    lemma WalkedAll(start: nat, length: nat, spent: nat)
      requires Walked(start, length, true, spent)
      ensures Whole(source.data, start) && CatalogCharge(source.data, start) == spent + PageCharge(0, length)
    {
    }

    // How far the walk from start has come, and what its entries have been charged.
    ghost predicate Walked(start: nat, length: nat, ended: bool, spent: nat)
    {
      && start + length <= |source.data|
      && (if ended then CatalogEnd(source.data, start) == Some(start + length) && EntryCharges(source.data, start) == spent
          else CatalogEnd(source.data, start) == CatalogEnd(source.data, start + length)
               && EntryCharges(source.data, start) == spent + EntryCharges(source.data, start + length))
    }

    // A round that cannot be paid for is part of a catalog that cannot.
    lemma StepCharges(start: nat, length: nat, spent: nat, room: int)
      requires Walked(start, length, false, spent)
      requires CutAt(source.data, start + length)
               || EntryCharge(source.data, start + length) + PageCharge(length, StepLength(source.data, start + length)) > room
      ensures Whole(source.data, start) ==> CatalogCharge(source.data, start) > spent + PageCharge(0, length) + room
    {
      var data, at := source.data, start + length;
      hide PageCharge;
      if Whole(data, start) {
        WalkStep(data, at);
        var n, rest := StepLength(data, at), CatalogEnd(data, start).value - start;
        PageChargeSum(0, length, n);
        PageChargeSum(0, length + n, rest - length - n);
      }
    }

    lemma CollectingBound(region: Region, start: nat, size: nat, ended: bool)
      requires Valid() && Collecting(region, start, size, ended)
      ensures region.length <= size
    {
    }

    method CollectNext(region: Region, start: nat, size: nat) returns (ended: bool, r: Region, e: Option<Error>)
      requires Valid() && budget.Valid() && Collecting(region, start, size, false)
      modifies this`charged, budget
      ensures budget.Valid() && budget.current - charged == old(budget.current - charged)
      ensures e.None? ==> Collecting(r, start, size, ended) && (!ended ==> region.length < r.length)
      ensures charged >= old(charged) && (e.None? ==> charged + Held(region) >= old(charged) + Held(r))
      ensures e.None? && source.honest && Genuine(regions, source.data) && PieceOf(region, source.data) && !hasCancel ==> PieceOf(r, source.data)
      ensures e.None? && Steady() && size == |source.data| ==>
                var at := start + region.length;
                && at <= size && ended == StopsAt(source.data, at) && r.length == region.length + StepLength(source.data, at)
                && charged == old(charged) + EntryCharge(source.data, at) + PageCharge(region.length, StepLength(source.data, at))
      ensures Steady() && size == |source.data| ==>
                var at := start + region.length;
                && at <= size
                && (e.None? <==> !CutAt(source.data, at) && old(budget.current) + EntryCharge(source.data, at) + PageCharge(region.length, StepLength(source.data, at)) <= budget.limit)
    {
      hide Records, Stops, IsRecord, Flatten, FullPages, LE, Genuine, PieceOf, PageCharge, StopsAt, CutAt, StepLength, EntryCharge;
      var left := size - (start + region.length);
      ended, r, e := TakeRecord(region, left);
      if e.None? {
        ghost var before, more := region.Content(), r.Content()[region.length..];
        assert r.Content() == before + more && r.Content()[..|before|] == before;
        if ended {
          assert r.data.None?;
          assert |more| == left <==> start + r.length == size;
        } else {
          RecordsAppend(before, more);
        }
      }
    }

    // One round: a header, then its name, extra field and comment; or the end.
    method TakeRecord(region: Region, left: nat) returns (ended: bool, r: Region, e: Option<Error>)
      requires Valid() && Building(region) && budget.Valid()
      modifies this`charged, budget
      ensures budget.Valid() && budget.current - charged == old(budget.current - charged)
      ensures e.None? ==> Building(r) && r.offset == region.offset && region.length <= r.length <= region.length + left
      ensures e.None? && !ended ==> region.length < r.length
      ensures e.None? ==> region.Content() <= r.Content()
                          && var more := r.Content()[region.length..]; if ended then Stops(more, |more| == left) else IsRecord(more)
      ensures charged >= old(charged) && (e.None? ==> charged + Held(region) >= old(charged) + Held(r))
      ensures e.None? && source.honest && Genuine(regions, source.data) && PieceOf(region, source.data) && !hasCancel ==> PieceOf(r, source.data)
      ensures e.None? && Steady() && region.offset + region.length + left == |source.data| ==>
                var at := region.offset + region.length;
                && ended == StopsAt(source.data, at) && r.length == region.length + StepLength(source.data, at)
                && charged == old(charged) + EntryCharge(source.data, at) + PageCharge(region.length, StepLength(source.data, at))
      ensures Steady() && region.offset + region.length + left == |source.data| ==>
                var at := region.offset + region.length;
                (e.None? <==> !CutAt(source.data, at)
                              && old(budget.current) + EntryCharge(source.data, at) + PageCharge(region.length, StepLength(source.data, at)) <= budget.limit)
    {
      ended, r := false, region;
      ghost var at := region.offset + region.length;
      var header;
      header, e := ReadAt(if left < 46 then left else 46, region.offset + region.length);
      if Steady() && at + left == |source.data| {
        HeaderRead(source.data, at, left, header);
      }
      if e.Some? {
        return;
      }
      hide Snug, Flatten, FullPages, LE, Genuine, PieceOf, Agree, Frozen, Direct, IsRecord, Variable, PageCharge;
      ended, r, e := TakeNext(region, header, left);
    }

    // What the header says: an end, or a record to take.
    method TakeNext(region: Region, header: Bytes, left: nat) returns (ended: bool, r: Region, e: Option<Error>)
      requires Valid() && Building(region) && budget.Valid() && |header| <= left && (|header| < 46 ==> |header| == left) && |header| <= 46
      requires Frozen(regions, region.offset + region.length, header) && Faithful(header, region.offset + region.length)
      modifies this`charged, budget
      ensures budget.Valid() && budget.current - charged == old(budget.current - charged)
      ensures e.None? ==> Building(r) && r.offset == region.offset && region.length <= r.length <= region.length + left
      ensures e.None? && !ended ==> region.length < r.length
      ensures e.None? ==> region.Content() <= r.Content()
                          && var more := r.Content()[region.length..]; if ended then Stops(more, |more| == left) else IsRecord(more)
      ensures charged >= old(charged) && (e.None? ==> charged + Held(region) >= old(charged) + Held(r))
      ensures e.None? && source.honest && Genuine(regions, source.data) && PieceOf(region, source.data) && !hasCancel ==> PieceOf(r, source.data)
      ensures ended == (|header| < 46 || LE(header, 0, 4) != DIRECTORY_HEADER)
      ensures e.None? ==> var taken := if ended then |header| else 46 + Variable(header);
                          && r.length == region.length + taken
                          && charged == old(charged) + (if ended then 0 else 512 + 3 * Variable(header)) + PageCharge(region.length, taken)
      ensures ended ==> (e.None? <==> old(budget.current) + PageCharge(region.length, |header|) <= budget.limit)
      ensures !ended && Steady() && region.offset + region.length + left == |source.data| ==>
                (e.None? <==> 46 + Variable(header) <= left
                              && old(budget.current) + 512 + 3 * Variable(header) + PageCharge(region.length, 46 + Variable(header)) <= budget.limit)
    {
      hide Snug, Flatten, FullPages, LE, Genuine, PieceOf, Agree, Frozen, Direct, IsRecord, Variable, PageCharge, Faithful;
      ended := |header| < 46 || LE(header, 0, 4) != DIRECTORY_HEADER;
      if ended {
        r, e := AppendRead(region, header);
        assert e.None? ==> r.Content()[region.length..] == header;
        return;
      }
      r, e := TakeWhole(region, header, left);
    }

    lemma HeaderRead(data: Bytes, at: nat, left: nat, header: Bytes)
      requires at + left == |data| && header == Direct(data, if left < 46 then left else 46, at)
      ensures |header| == if left < 46 then left else 46
      ensures StopsAt(data, at) <==> |header| < 46 || LE(header, 0, 4) != DIRECTORY_HEADER
      ensures StopsAt(data, at) ==> StepLength(data, at) == |header| && EntryCharge(data, at) == 0
      ensures !StopsAt(data, at) ==> StepLength(data, at) == 46 + Variable(header) && EntryCharge(data, at) == 512 + 3 * Variable(header)
      ensures CutAt(data, at) <==> !StopsAt(data, at) && 46 + Variable(header) > left
    {
      if left >= 46 {
        assert data[at..at + 46] == header;
      } else {
        assert |Direct(data, left, at)| == left;
      }
    }

    // A record whose header has been read.
    method TakeWhole(region: Region, header: Bytes, left: nat) returns (r: Region, e: Option<Error>)
      requires Valid() && Building(region) && budget.Valid() && |header| == 46 && LE(header, 0, 4) == DIRECTORY_HEADER
      requires Frozen(regions, region.offset + region.length, header) && Faithful(header, region.offset + region.length)
      modifies this`charged, budget
      ensures budget.Valid() && budget.current - charged == old(budget.current - charged)
      ensures e.None? ==> Building(r) && r.offset == region.offset && region.length < r.length <= region.length + left
      ensures e.None? ==> region.Content() <= r.Content() && IsRecord(r.Content()[region.length..])
      ensures charged >= old(charged) && (e.None? ==> charged + Held(region) >= old(charged) + Held(r))
      ensures e.None? && source.honest && Genuine(regions, source.data) && PieceOf(region, source.data) && !hasCancel ==> PieceOf(r, source.data)
      ensures e.None? ==> 46 + Variable(header) <= left && r.length == region.length + 46 + Variable(header)
      ensures e.None? ==> charged == old(charged) + 512 + 3 * Variable(header) + PageCharge(region.length, 46 + Variable(header))
      ensures Steady() && region.offset + region.length + left == |source.data| ==>
                (e.None? <==> 46 + Variable(header) <= left
                              && old(budget.current) + 512 + 3 * Variable(header) + PageCharge(region.length, 46 + Variable(header)) <= budget.limit)
    {
      hide Snug, Flatten, FullPages, LE, Genuine, PieceOf, Agree, Frozen, Direct, IsRecord, Faithful, PageCharge, Variable;
      r := region;
      var variable := Variable(header);
      PageChargeSum(region.length, 46, variable);
      if 46 + variable > left {
        return region, Some(Format);
      }
      var admitted := Reserve(512 + 3 * variable);
      if !admitted {
        return region, Some(OverLimit);
      }
      r, e := AppendRead(region, header);
      if e.Some? {
        return;
      }
      ghost var some := r.Content();
      r, e := TakeAll(r, variable);
      if e.None? {
        WholeRecord(region.Content(), header, some, r.Content());
      }
    }

    // The variable part, a page at a time.
    method TakeAll(region: Region, length: nat) returns (r: Region, e: Option<Error>)
      requires Valid() && Building(region) && budget.Valid()
      modifies this`charged, budget
      ensures budget.Valid() && budget.current - charged == old(budget.current - charged)
      ensures e.None? ==> Building(r) && r.offset == region.offset && r.length == region.length + length && region.Content() <= r.Content()
      ensures charged >= old(charged) && (e.None? ==> charged + Held(region) >= old(charged) + Held(r))
      ensures e.None? && source.honest && Genuine(regions, source.data) && PieceOf(region, source.data) && !hasCancel ==> PieceOf(r, source.data)
      ensures e.None? ==> charged == old(charged) + PageCharge(region.length, length)
      ensures Steady() && region.offset + region.length + length <= |source.data| ==>
                (e.None? <==> old(budget.current) + PageCharge(region.length, length) <= budget.limit)
    {
      r, e := region, None;
      var left := length;
      hide PageCharge, Genuine, PieceOf, Snug, Flatten, FullPages;
      NoPages(region.length);
      while left > 0
        invariant 0 <= left <= length && Building(r) && r.offset == region.offset && r.length == region.length + (length - left) && e.None?
        invariant budget.Valid() && budget.current - charged == old(budget.current - charged)
        invariant region.Content() <= r.Content() && charged >= old(charged) && charged + Held(region) >= old(charged) + Held(r)
        invariant source.honest && Genuine(regions, source.data) && PieceOf(region, source.data) && !hasCancel ==> PieceOf(r, source.data)
        invariant charged == old(charged) + PageCharge(region.length, length - left)
      {
        var n := if left < PAGE then left else PAGE;
        PageChargeSum(region.length, length - left, n);
        PageChargeSum(region.length, length - left + n, left - n);
        r, e := Take(r, n);
        if e.Some? {
          return;
        }
        left := left - n;
      }
    }

    // Reads a flat region through the snapshot and freezes it.
    method FreezeFlat(offset: nat, length: nat) returns (data: Bytes, e: Option<Error>)
      requires Valid() && budget.Valid()
      modifies this`regions
      ensures Valid() && (e.None? ==> |data| == length && regions == old(regions) + [Region(offset, Some(data), [], length)])
      ensures e.Some? ==> regions == old(regions)
      ensures HeldAll(regions) == old(HeldAll(regions)) + if e.None? then length else 0
      ensures old(Genuine(regions, source.data)) && source.honest && offset + length <= |source.data| && !hasCancel ==> Genuine(regions, source.data)
      ensures old(Steady()) && offset + length <= |source.data| ==> e.None? && data == source.data[offset..offset + length]
    {
      data, e := ReadAt(length, offset);
      if e.None? {
        var region := Region(offset, Some(data), [], length);
        Freeze(region);
        HeldMore(old(regions), region);
      }
    }

    // The backwards search for the end record, as bounded as archive/zip's own: the last signature decides.
    method FindEnd(tail: Bytes) returns (position: int)
      ensures position == -1 || (0 <= position && position + 22 <= |tail| && EndRecord(tail, position))
      ensures position == -1 ==> forall p: nat :: !EndRecord(tail, p)
    {
      var i := |tail| - 22;
      while i >= 0
        invariant i + 22 <= |tail|
        invariant forall j: nat :: i < j && j + 22 <= |tail| ==> LE(tail, j, 4) != DIRECTORY_END
      {
        if LE(tail, i, 4) == DIRECTORY_END {
          return if i + 22 + LE(tail, i + 20, 2) <= |tail| then i else -1;
        }
        i := i - 1;
      }
      position := -1;
    }

    // preflight: the tail, the ZIP64 record, and both places a parser may look for the directory. Over an
    // honest source it succeeds exactly for the sound files whose charges the budget takes.
    method Preflight(size: nat) returns (e: Option<Error>)
      requires Valid() && budget.Valid() && regions == []
      modifies this`regions, this`charged, budget
      ensures Valid() && budget.Valid() && budget.current - charged == old(budget.current - charged)
      ensures e.None? ==> forall at: nat :: size <= at + 65 * 1024 && at < size ==> Covered(regions, at)
      ensures e.None? ==> Admitted(regions, size, charged - old(charged))
      ensures charged - HeldAll(regions) >= old(charged)
      ensures source.honest && size == |source.data| && !hasCancel ==> Genuine(regions, source.data)
      ensures source.honest && size == |source.data| && !hasCancel ==>
                (e.None? <==> exists p, d :: Sound(source.data, p, d) && old(budget.current) + MetadataCharge(source.data, p, d) <= budget.limit)
      ensures source.honest && size == |source.data| && !hasCancel && e.None? ==>
                forall p, d :: Sound(source.data, p, d) ==> charged == old(charged) + MetadataCharge(source.data, p, d)
    {
      hide LE, Agree, Genuine, PieceOf, BothCatalogued, DeclaredBy, EndRecord, Covered, Admitted, AdmittedAs, Valid, Sound, MetadataCharge,
           Declaration, RecordCharge, Lies, DirectoryCharge, Tail;
      ghost var honest := source.honest && size == |source.data| && !hasCancel;
      ghost var d := Declared(0, 0, 0, 0);
      var tail;
      tail, e := FreezeTail(size);
      if e.Some? {
        if honest {
          TooDear(size);
        }
        return;
      }
      var position := FindEnd(tail);
      if position < 0 {
        if honest {
          NoEnd();
        }
        return Some(Format);
      }
      e, d := Directories(tail, position, size - TailSize(size) + position, size);
      if e.None? {
        AdmittedBy(tail, position, size, d, charged - old(charged));
      }
      if honest {
        Verdict(position, e.None?, old(budget.current), d);
      }
    }

    // Even the tail is charged.
    lemma TooDear(size: nat)
      requires size == |source.data|
      ensures forall p, d :: Sound(source.data, p, d) ==> MetadataCharge(source.data, p, d) >= TailSize(size)
    {
    }

    lemma NoEnd()
      requires forall p: nat :: !EndRecord(Tail(source.data), p)
      ensures forall p, d :: !Sound(source.data, p, d)
    {
    }

    // The end record found is the only one.
    lemma Verdict(p: nat, ok: bool, before: nat, d: Declared)
      requires EndRecord(Tail(source.data), p) && p + 22 <= TailSize(|source.data|)
      requires ok <==> var f := Declaration(source.data, p);
                       f.Some? && Lies(source.data, f.value)
                       && before + TailSize(|source.data|) + RecordCharge(source.data, p) + DirectoryCharge(source.data, f.value) <= budget.limit
      requires ok ==> Declaration(source.data, p) == Some(d)
      ensures ok <==> exists q, f :: Sound(source.data, q, f) && before + MetadataCharge(source.data, q, f) <= budget.limit
      ensures ok ==> Lies(source.data, d) && forall q, f :: Sound(source.data, q, f) ==>
                       MetadataCharge(source.data, q, f) == TailSize(|source.data|) + RecordCharge(source.data, p) + DirectoryCharge(source.data, d)
    {
      hide EndRecord, Lies, Declaration, DirectoryCharge, RecordCharge;
      if ok {
        assert Sound(source.data, p, d);
        forall q, f | Sound(source.data, q, f)
          ensures q == p && f == d
        {
          OneWay(source.data, p, d, q, f);
        }
      } else {
        forall q, f | Sound(source.data, q, f)
          ensures before + MetadataCharge(source.data, q, f) > budget.limit
        {
          OneEnd(Tail(source.data), p, q);
        }
      }
    }

    // The tail a parser may search for the end record.
    method FreezeTail(size: nat) returns (tail: Bytes, e: Option<Error>)
      requires Valid() && budget.Valid() && regions == []
      modifies this`regions, this`charged, budget
      ensures Valid() && budget.Valid() && budget.current - charged == old(budget.current - charged)
      ensures charged - HeldAll(regions) >= old(charged)
      ensures e.None? ==> |tail| == TailSize(size) && regions == [Region(size - TailSize(size), Some(tail), [], TailSize(size))]
      ensures source.honest && size == |source.data| && !hasCancel ==> Genuine(regions, source.data)
      ensures e.None? ==> charged == old(charged) + TailSize(size)
      ensures source.honest && size == |source.data| && !hasCancel ==>
                (e.None? <==> old(budget.current) + TailSize(size) <= budget.limit) && (e.None? ==> tail == Tail(source.data))
    {
      assert Genuine(regions, source.data);
      hide LE, Agree, Genuine, PieceOf;
      tail, e := [], None;
      var admitted := Reserve(TailSize(size));
      if !admitted {
        return [], Some(OverLimit);
      }
      tail, e := FreezeFlat(size - TailSize(size), TailSize(size));
    }

    lemma AdmittedBy(tail: Bytes, p: nat, size: nat, d: Declared, paid: int)
      requires Valid() && |regions| > 0 && regions[0] == Region(size - TailSize(size), Some(tail), [], TailSize(size))
      requires EndRecord(tail, p) && DeclaredBy(regions, tail, p, size - TailSize(size) + p, d) && BothCatalogued(regions, d, size)
      requires HeldAll(regions) + 512 * d.count <= paid
      ensures Admitted(regions, size, paid)
      ensures forall at: nat :: size <= at + 65 * 1024 && at < size ==> Covered(regions, at)
    {
      assert AdmittedAs(regions, size, tail, p, d) by {
        hide EndRecord, DeclaredBy, BothCatalogued, Covered;
      }
      TailCovered(regions, size, tail, p, d);
    }

    // The ZIP64 end record, when a locator points to one.
    method Zip64(end: nat, size: nat) returns (record: Option<Bytes>, at: nat, e: Option<Error>)
      requires Valid() && budget.Valid() && end <= size
      modifies this`regions, this`charged, budget
      ensures Valid() && budget.Valid() && budget.current - charged == old(budget.current - charged)
      ensures old(regions) <= regions && charged - HeldAll(regions) >= old(charged - HeldAll(regions))
      ensures record.Some? ==> |record.value| == 56 && at + 56 <= size && LE(record.value, 0, 4) == DIRECTORY_END_64
                               && Region(at, record, [], 56) in regions
      ensures old(Genuine(regions, source.data)) && source.honest && size == |source.data| && !hasCancel ==> Genuine(regions, source.data)
      ensures e.None? ==> charged == old(charged) + if record.Some? then 56 else 0
      ensures old(Steady()) && size == |source.data| ==>
                (e.None? <==> match Zip64At(source.data, end) case Absent => true case Unsound => false case At(_) => old(budget.current) + 56 <= budget.limit)
      ensures e.None? && old(Steady()) && size == |source.data| ==>
                match Zip64At(source.data, end)
                case At(a) => a == at && record == Some(source.data[a..a + 56])
                case _ => record.None?
    {
      hide LE, Agree, Genuine, PieceOf, Frozen, Direct;
      record, at, e := None, 0, None;
      if end < 20 {
        return;
      }
      ghost var steady := Steady() && size == |source.data|;
      if steady {
        DirectIs(20, end - 20);
      }
      var locator;
      locator, e := ReadAt(20, end - 20);
      if e.Some? || LE(locator, 0, 4) != LOCATOR_64 || LE(locator, 4, 4) != 0 || LE(locator, 16, 4) != 1 {
        return;
      }
      at := LE(locator, 8, 8);
      if size < 56 || at > size - 56 {
        e := Some(Format);
        return;
      }
      var admitted := Reserve(56);
      if !admitted {
        e := Some(OverLimit);
        return;
      }
      if steady {
        DirectIs(56, at);
      }
      var data;
      data, e := ReadAt(56, at);
      if e.Some? {
        return;
      }
      if LE(data, 0, 4) != DIRECTORY_END_64 {
        e := Some(Format);
        return;
      }
      var region := Region(at, Some(data), [], 56);
      if source.honest && Genuine(regions, source.data) && size == |source.data| && !hasCancel {
        FlatPiece(region, source.data);
      }
      Freeze(region);
      HeldMore(old(regions), region);
      record := Some(data);
    }

    // What the end records declare, and the directories read for it.
    method Directories(tail: Bytes, position: nat, end: nat, size: nat) returns (e: Option<Error>, ghost d: Declared)
      requires Valid() && budget.Valid() && position + 22 <= |tail| && end <= size
      modifies this`regions, this`charged, budget
      ensures Valid() && budget.Valid() && budget.current - charged == old(budget.current - charged)
      ensures old(regions) <= regions && charged - HeldAll(regions) >= old(charged - HeldAll(regions))
      ensures e.None? ==> DeclaredBy(regions, tail, position, end, d) && BothCatalogued(regions, d, size)
      ensures old(Genuine(regions, source.data)) && source.honest && size == |source.data| && !hasCancel ==> Genuine(regions, source.data)
      ensures e.None? ==> charged - HeldAll(regions) - 512 * d.count >= old(charged - HeldAll(regions))
      ensures old(Steady()) && size == |source.data| && position + 22 <= TailSize(size) && tail == Tail(source.data) && end == EndAt(source.data, position) ==>
                (e.None? <==> var f := Declaration(source.data, position);
                              f.Some? && Lies(source.data, f.value)
                              && old(budget.current) + RecordCharge(source.data, position) + DirectoryCharge(source.data, f.value) <= budget.limit)
      ensures e.None? && old(Steady()) && size == |source.data| && position + 22 <= TailSize(size) && tail == Tail(source.data) && end == EndAt(source.data, position) ==>
                && Declaration(source.data, position) == Some(d) && Lies(source.data, d)
                && charged == old(charged) + RecordCharge(source.data, position) + DirectoryCharge(source.data, d)
    {
      hide LE, Valid, Genuine, BothCatalogued, Lies, DirectoryCharge, Zip64At;
      var declared := EndDeclares(tail, position, end);
      d := declared;
      if Escapes(declared) {
        var record, at;
        record, at, e := Zip64(end, size);
        if e.Some? {
          return;
        }
        if record.Some? {
          declared := RecordDeclares(record.value, at);
          d := declared;
          assert Region(at, record, [], 56) in regions;
        }
      }
      ghost var before := regions;
      e := SnapshotBoth(declared, size);
      assert before <= regions;
      assert Escapes(EndDeclares(tail, position, end)) && d != EndDeclares(tail, position, end) ==> exists r <- before :: FromRecord(r, d);
      assert forall r <- before :: r in regions;
    }

    // Declared entries are charged before anything is read for them; then both places where a
    // parser may look for the directory are snapshot.
    method SnapshotBoth(d: Declared, size: nat) returns (e: Option<Error>)
      requires Valid() && budget.Valid() && d.end <= size
      modifies this`regions, this`charged, budget
      ensures Valid() && budget.Valid() && budget.current - charged == old(budget.current - charged)
      ensures old(regions) <= regions && charged - HeldAll(regions) >= old(charged - HeldAll(regions))
      ensures e.None? ==> BothCatalogued(regions, d, size)
      ensures old(Genuine(regions, source.data)) && source.honest && size == |source.data| && !hasCancel ==> Genuine(regions, source.data)
      ensures e.None? ==> charged - HeldAll(regions) - 512 * d.count >= old(charged - HeldAll(regions))
      ensures old(Steady()) && size == |source.data| ==>
                (e.None? <==> Lies(source.data, d) && old(budget.current) + DirectoryCharge(source.data, d) <= budget.limit)
      ensures e.None? && old(Steady()) && size == |source.data| ==> charged == old(charged) + DirectoryCharge(source.data, d)
    {
      hide Agree, Genuine, Multiply, IsCatalog, Region.Valid;
      var declared := Multiply(d.count, 512);
      if declared.None? {
        return Some(OverLimit);
      }
      var admitted := Reserve(declared.value);
      if !admitted {
        return Some(OverLimit);
      }
      if d.offset > size || d.size > d.end {
        return Some(Format);
      }
      var start := d.end - d.size;
      e := SnapshotDirectory(start, size);
      if e.None? {
        ghost var first := regions[|old(regions)|];
        assert first in regions && IsCatalog(first, start, size);
        if start > d.offset {
          ghost var before := regions;
          e := SnapshotDirectory(d.offset, size);
          assert before <= regions && first in regions;
          assert e.None? ==> regions[|before|] in regions && IsCatalog(regions[|before|], d.offset, size);
        }
      }
    }
  }

  lemma FlatPiece(r: Region, data: Bytes)
    requires r.data.Some? && r.Valid() && r.offset + r.length <= |data| && r.data.value == Direct(data, r.length, r.offset)
    ensures PieceOf(r, data)
  {
  }

  lemma HeldMore(regions: seq<Region>, r: Region)
    ensures HeldAll(regions + [r]) == HeldAll(regions) + Held(r)
  {
    assert (regions + [r])[..|regions|] == regions;
  }

  lemma WholeRecord(before: Bytes, header: Bytes, some: Bytes, all: Bytes)
    requires |header| == 46 && LE(header, 0, 4) == DIRECTORY_HEADER && some == before + header && some <= all
    requires |all| == |some| + Variable(header)
    ensures before <= all && IsRecord(all[|before|..])
  {
    hide LE;
    var record := all[|before|..];
    assert all[..|some|] == some;
    assert record[..46] == header;
    SameHeader(header, record);
  }

  // As many pages as the length needs.
  ghost predicate Snug(r: Region)
  {
    r.data.None? && FullPages(r.pages) && |Flatten(r.pages)| == |r.pages| * PAGE && r.length <= |r.pages| * PAGE < r.length + PAGE
  }

  lemma SnugPages(length: nat, n: nat)
    requires length <= n * PAGE < length + PAGE
    ensures n == Pages(length)
  {
  }

  function Blank(n: nat): (b: Bytes)
    ensures |b| == n
  {
    if n == 0 then [] else Blank(n - 1) + [0]
  }

  function BlankPage(): (b: Bytes)
    ensures |b| == PAGE
  {
    Blank(PAGE)
  }

  // copy into the page in use, or into a new one.
  method AppendSome(region: Region, data: Bytes) returns (r: Region, n: nat)
    requires Snug(region) && data != []
    ensures Snug(r) && r.Valid() && r.offset == region.offset && 0 < n <= |data| && r.Content() == region.Content() + data[..n]
    ensures r.data.None? && |r.pages| == |region.pages| + if region.length % PAGE == 0 then 1 else 0
  {
    SnugLast(region.length, |region.pages|);
    hide Flatten, FullPages, Blank, Snug;
    r, n := AppendAt(region, region.length / PAGE, region.length % PAGE, data);
  }

  method AppendAt(region: Region, index: nat, used: nat, data: Bytes) returns (r: Region, n: nat)
    requires Snug(region) && data != [] && region.length == index * PAGE + used && used < PAGE
    requires |region.pages| == if used == 0 then index else index + 1
    ensures Snug(r) && r.Valid() && r.offset == region.offset && 0 < n <= |data| && r.Content() == region.Content() + data[..n]
    ensures r.data.None? && |r.pages| == index + 1
  {
    var pages := Extended(region.pages, used == 0);
    n := if PAGE - used <= |data| then PAGE - used else |data|;
    ExtendedFacts(region.pages, used == 0, index);
    hide Flatten, FullPages, Extended, Overwrite, Region.Content;
    var page := Overwrite(pages[index], used, data[..n]);
    WithLast(region.pages, pages, index, page);
    r := Region(region.offset, None, pages[index := page], region.length + n);
    Appended(region, r, index, used, pages[index][..used], data[..n]);
  }

  function Extended(pages: seq<Bytes>, more: bool): seq<Bytes>
  {
    if more then pages + [BlankPage()] else pages
  }

  lemma ExtendedFacts(pages: seq<Bytes>, more: bool, index: nat)
    requires FullPages(pages) && |pages| == if more then index else index + 1
    ensures |Extended(pages, more)| == index + 1 && |Extended(pages, more)[index]| == PAGE
    ensures if more then Extended(pages, more)[..index] == pages else Extended(pages, more) == pages
  {
    if !more {
      assert pages[index] in pages;
    }
  }

  lemma Appended(region: Region, r: Region, index: nat, used: nat, kept: Bytes, chunk: Bytes)
    requires Snug(region) && Snug(r) && index < |r.pages| == index + 1 && index <= |region.pages| <= index + 1
    requires region.length == index * PAGE + used && r.length == region.length + |chunk| && chunk != [] && used + |chunk| <= PAGE
    requires r.pages[..index] == region.pages[..index] && |kept| == used && |r.pages[index]| == PAGE
    requires r.pages[index][..used + |chunk|] == kept + chunk
    requires used > 0 ==> index < |region.pages| && |region.pages[index]| == PAGE && region.pages[index][..used] == kept
    ensures r.Content() == region.Content() + chunk
  {
    hide Flatten, FullPages, Region.Content;
    ContentByLast(region, index, used);
    ContentByLast(r, index, used + |chunk|);
    Regroup(Flatten(region.pages[..index]), kept, chunk);
  }

  lemma Regroup(a: Bytes, b: Bytes, c: Bytes)
    ensures a + (b + c) == (a + b) + c
    ensures b == [] ==> a + (b + c) == a + c
  {
  }

  function Overwrite(page: Bytes, at: nat, data: Bytes): (p: Bytes)
    requires at + |data| <= |page|
    ensures |p| == |page| && p[..at] == page[..at] && p[..at + |data|] == page[..at] + data
  {
    page[..at] + data + page[at + |data|..]
  }

  // Replacing the last page, or adding one, leaves the pages before it.
  lemma WithLast(before: seq<Bytes>, pages: seq<Bytes>, index: nat, page: Bytes)
    requires FullPages(before) && |page| == PAGE && index < |pages| == index + 1
    requires if |before| == index then pages[..index] == before else pages == before
    ensures FullPages(pages[index := page]) && pages[index := page][..index] == before[..index]
    ensures |Flatten(pages[index := page])| == |pages| * PAGE
  {
    var after := pages[index := page];
    forall p | p in after
      ensures |p| == PAGE
    {
      var j :| 0 <= j < |after| && after[j] == p;
      assert j < index ==> p in before;
    }
    FlattenLength(after);
  }

  lemma SnugLast(length: nat, n: nat)
    requires length <= n * PAGE < length + PAGE
    ensures length == length / PAGE * PAGE + length % PAGE
    ensures if length % PAGE == 0 then n == length / PAGE else n == length / PAGE + 1
  {
  }

  // The content of a region whose last page holds used bytes of it.
  lemma ContentByLast(r: Region, index: nat, used: nat)
    requires Snug(r) && index <= |r.pages| <= index + 1 && r.length == index * PAGE + used && used <= PAGE
    ensures used == 0 ==> r.Content() == Flatten(r.pages[..index])
    ensures used > 0 ==> index < |r.pages| && |r.pages[index]| == PAGE && r.Content() == Flatten(r.pages[..index]) + r.pages[index][..used]
  {
    FlattenLength(r.pages[..index]);
    if |r.pages| == index {
      assert r.pages[..index] == r.pages;
    } else {
      assert r.pages[..|r.pages| - 1] == r.pages[..index];
    }
  }

  lemma AgreeAppend(regions: seq<Region>, region: Region)
    requires AllValid(regions) && Agree(regions) && region.Valid() && Frozen(regions, region.offset, region.Content())
    ensures AllValid(regions + [region]) && Agree(regions + [region])
  {
    var all := regions + [region];
    forall r, s, at: nat | r in all && s in all && r.Covers(at) && s.Covers(at)
      ensures r.At(at) == s.At(at)
    {
      assert r == region || r in regions;
      assert s == region || s in regions;
    }
  }

  // The paged half: index the page, copy to its end at most.
  method CopyPage(pages: seq<Bytes>, total: nat, rel: nat, length: nat) returns (out: Bytes)
    requires FullPages(pages) && rel < total <= |Flatten(pages)| && length > 0
    ensures 0 < |out| <= length && rel + |out| <= total
    ensures out == Flatten(pages)[rel..rel + |out|]
  {
    FlattenLength(pages);
    PageOf(rel, |pages|);
    hide Flatten, FullPages;
    out := CopyFrom(pages, rel / PAGE, rel % PAGE, total - rel, length);
  }

  method CopyFrom(pages: seq<Bytes>, index: nat, start: nat, left: nat, length: nat) returns (out: Bytes)
    requires FullPages(pages) && index < |pages| && start < PAGE && left > 0 && length > 0
    ensures 0 < |out| <= length && |out| <= left && index * PAGE + start + |out| <= |Flatten(pages)|
    ensures out == Flatten(pages)[index * PAGE + start..index * PAGE + start + |out|]
  {
    FlattenLength(pages);
    FlattenAt(pages, index);
    hide Flatten, FullPages;
    var page := pages[index];
    var end := if |page| <= start + left then |page| else start + left;
    var count := if end - start <= length then end - start else length;
    out := page[start..start + count];
    SliceOfSlice(Flatten(pages), index * PAGE, PAGE, start, count);
  }

  lemma SliceOfSlice(s: Bytes, base: nat, n: nat, start: nat, count: nat)
    requires base + n <= |s| && start + count <= n
    ensures s[base..base + n][start..start + count] == s[base + start..base + start + count]
  {
    var l, r := s[base..base + n][start..start + count], s[base + start..base + start + count];
    assert |l| == |r| == count;
    forall k | 0 <= k < count
      ensures l[k] == r[k]
    {
      assert l[k] == s[base..base + n][start + k] == s[base + start + k];
    }
  }

  lemma SliceOfTaken(s: Bytes, length: nat, rel: nat, count: nat)
    requires length <= |s| && rel + count <= length
    ensures s[..length][rel..][..count] == s[rel..rel + count]
  {
  }

  lemma FrozenAppend(regions: seq<Region>, offset: nat, out: Bytes, piece: Bytes)
    requires AllValid(regions) && Frozen(regions, offset, out) && Frozen(regions, offset + |out|, piece)
    ensures Frozen(regions, offset, out + piece)
  {
  }

  lemma DirectAppend(data: Bytes, offset: nat, n: nat, m: nat, length: nat)
    ensures |Direct(data, n, offset)| == n && |Direct(data, m, offset + n)| == m ==>
              Direct(data, n, offset) + Direct(data, m, offset + n) == Direct(data, n + m, offset)
    ensures offset + n + m >= |data| && n + m <= length && |Direct(data, n + m, offset)| == n + m ==> Direct(data, length, offset) == Direct(data, n + m, offset)
  {
  }

  // A piece of one region is what every region says, and, when genuine, what the source says.
  lemma FromRegion(regions: seq<Region>, region: Region, offset: nat, piece: Bytes, data: Bytes)
    requires AllValid(regions) && Agree(regions) && region in regions && region.Covers(offset)
    requires offset - region.offset + |piece| <= region.length && piece == region.Content()[offset - region.offset..][..|piece|]
    ensures Frozen(regions, offset, piece)
    ensures Genuine(regions, data) ==> piece == Direct(data, |piece|, offset)
  {
    hide Flatten, FullPages, Genuine;
    forall at: nat, r | offset <= at < offset + |piece| && r in regions && r.Covers(at)
      ensures piece[at - offset] == r.At(at)
    {
      assert region.Covers(at) && piece[at - offset] == region.At(at);
    }
    if Genuine(regions, data) {
      GenuinePiece(regions, region, data);
      SliceOfDrop(data, region.offset, region.length, offset - region.offset, |piece|);
    }
  }

  lemma GenuinePiece(regions: seq<Region>, region: Region, data: Bytes)
    requires AllValid(regions) && Genuine(regions, data) && region in regions
    ensures PieceOf(region, data)
  {
  }

  lemma SliceOfDrop(s: Bytes, base: nat, n: nat, rel: nat, count: nat)
    requires base + n <= |s| && rel + count <= n
    ensures s[base..base + n][rel..][..count] == s[base + rel..base + rel + count]
  {
    SliceOfSlice(s, base, n, rel, count);
  }

  lemma PieceGrows(region: Region, r: Region, out: Bytes, data: Bytes)
    requires region.Valid() && r.Valid() && r.offset == region.offset && r.Content() == region.Content() + out
    requires PieceOf(region, data) && out == Direct(data, |out|, region.offset + region.length)
    ensures PieceOf(r, data)
  {
  }

  // ----- readers and their charges -----

  const OPEN_WORKSPACE := 8 * 1024 * 1024

  // ZIPReader: owns charged bytes of the budget while it is open.
  class ZipReader {
    const budget: Budget
    var charged: nat
    var open: bool

    constructor (budget: Budget, charged: nat)
      ensures this.budget == budget && this.charged == charged && open
    {
      this.budget, this.charged, this.open := budget, charged, true;
    }

    // Closing twice gives nothing back twice.
    method Close() returns (ok: bool)
      requires budget.Valid() && (open ==> charged <= budget.current)
      modifies this, budget
      ensures budget.Valid() && ok && !open
      ensures budget.current == old(budget.current) - if old(open) then old(charged) else 0
    {
      if !open {
        return true;
      }
      open := false;
      ok := budget.Release(charged);
      if ok {
        charged := 0;
      }
    }
  }

  type Word64 = x: nat | x <= MAX_UINT64

  // The parser is outside this model: it refuses, or returns entries with these variable parts, and room
  // for some more.
  datatype Parsed = Refused | Entries(variables: seq<Word64>, spare: nat)

  // What the parsed entries keep.
  function Kept(parsed: Parsed): nat
    requires parsed.Entries?
  {
    RETAINED_BASE + parsed.spare * 8 + Sum(EntryCosts(parsed.variables))
  }

  // An archive that can be opened: sound, within the budget with its workspace, parsed, and not larger in
  // memory than what was charged for it.
  ghost predicate Opens(data: Bytes, parsed: Parsed, room: int)
  {
    parsed.Entries? && exists p, d ::
      Sound(data, p, d) && 8 * 1024 * 1024 + MetadataCharge(data, p, d) <= room && Kept(parsed) <= 8 * 1024 * 1024 + MetadataCharge(data, p, d)
  }

  lemma SoundSize(data: Bytes, p: nat, d: Declared)
    requires Sound(data, p, d)
    ensures |data| >= 22 && MetadataCharge(data, p, d) >= 0
  {
  }

  // OpenZIPReader. Only a returned reader leaves a charge, and it owns it. Over an honest source it opens
  // exactly the archives that can be opened.
  method OpenZipReader(source: Source, size: nat, hasCancel: bool, budget: Budget, parsed: Parsed) returns (r: ZipReader?, e: Option<Error>)
    requires budget.Valid()
    modifies budget
    ensures budget.Valid() && (r == null <==> e.Some?)
    ensures r == null ==> budget.current == old(budget.current)
    ensures r != null ==> fresh(r) && r.open && r.budget == budget && budget.current == old(budget.current) + r.charged
    ensures r != null ==> parsed.Entries? && r.charged == Kept(parsed)
    ensures source.honest && size == |source.data| && !hasCancel ==> (r != null <==> Opens(source.data, parsed, budget.limit - old(budget.current)))
  {
    hide Sound, MetadataCharge, Kept, Sum;
    forall p, d | Sound(source.data, p, d)
      ensures |source.data| >= 22 && MetadataCharge(source.data, p, d) >= 0
    {
      SoundSize(source.data, p, d);
    }
    if size < 22 {
      return null, Some(Format);
    }
    var reader := new MetadataReader(source, hasCancel, budget);
    var admitted := reader.Reserve(OPEN_WORKSPACE);
    if !admitted {
      return null, Some(OverLimit);
    }
    var retained;
    retained, e := Parse(reader, size, parsed);
    if e.Some? {
      var freed := budget.Release(reader.charged);
      return null, e;
    }
    var freed := budget.Release(reader.charged - retained);
    r := new ZipReader(budget, retained);
  }

  // Preflight, the parser over the frozen metadata, and what the parsed entries keep.
  method Parse(reader: MetadataReader, size: nat, parsed: Parsed) returns (retained: nat, e: Option<Error>)
    requires reader.Valid() && reader.budget.Valid() && reader.regions == [] && reader.charged <= reader.budget.current
    modifies reader`regions, reader`charged, reader.budget
    ensures reader.budget.Valid() && reader.budget.current - reader.charged == old(reader.budget.current - reader.charged)
    ensures e.None? ==> parsed.Entries? && retained == Kept(parsed) && retained <= reader.charged
    ensures reader.source.honest && size == |reader.source.data| && !reader.hasCancel ==>
              (e.None? <==> parsed.Entries? && exists p, d ::
                 Sound(reader.source.data, p, d) && old(reader.budget.current) + MetadataCharge(reader.source.data, p, d) <= reader.budget.limit
                 && Kept(parsed) <= old(reader.charged) + MetadataCharge(reader.source.data, p, d))
  {
    hide Sound, MetadataCharge, Kept, Covered, Admitted, Genuine, MetadataReader.Valid;
    retained := 0;
    e := reader.Preflight(size);
    if e.Some? {
      return;
    }
    retained, e := Measure(reader.charged, reader.hasCancel, parsed);
  }

  method Measure(charged: nat, hasCancel: bool, parsed: Parsed) returns (retained: nat, e: Option<Error>)
    requires charged <= MAX_UINT64
    ensures e.None? ==> parsed.Entries? && retained == Kept(parsed) && retained <= charged
    ensures !hasCancel ==> (e.None? <==> parsed.Entries? && Kept(parsed) <= charged)
  {
    if parsed.Refused? {
      return 0, Some(Format);
    }
    var cancelled := Attempt();
    if hasCancel && cancelled {
      return 0, Some(CancelledRead);
    }
    var kept := RetainedBytes(parsed.variables, parsed.spare, 8);
    if kept.None? || kept.value > charged {
      return 0, Some(OverLimit);
    }
    cancelled := Attempt();
    if hasCancel && cancelled {
      return 0, Some(CancelledRead);
    }
    retained, e := kept.value, None;
  }

  // PreparedZIPUnpack: one use, one reader, and a workspace, until Close.
  class Prepared {
    const budget: Budget
    const directory: string
    const identity: nat
    const size: nat
    var reader: ZipReader?
    var working: nat
    var used: bool

    constructor (reader: ZipReader, directory: string, identity: nat, size: nat, working: nat)
      ensures this.reader == reader && this.budget == reader.budget && this.working == working && !used
      ensures this.directory == directory && this.identity == identity && this.size == size
    {
      this.reader, this.budget, this.working, this.used := reader, reader.budget, working, false;
      this.directory, this.identity, this.size := directory, identity, size;
    }

    // What the prepared state holds of the budget.
    ghost function Charge(): nat
      reads this, if reader == null then {} else {reader}
    {
      if reader == null then 0 else working + if reader.open then reader.charged else 0
    }

    // use: at most once, and only for what was prepared.
    method Use(directory: string, budget: Budget, identity: nat, size: nat) returns (r: ZipReader?)
      modifies this`used
      ensures r != null ==> !old(used) && used && r == reader
      ensures r != null <==> reader != null && !old(used) && directory == this.directory && budget == reader.budget
                             && identity == this.identity && size == this.size
      ensures r == null ==> used == old(used)
    {
      if reader == null || used {
        return null;
      }
      if directory != this.directory || budget != reader.budget || identity != this.identity || size != this.size {
        return null;
      }
      used := true;
      r := reader;
    }

    // Gives back everything still held, once.
    method Close()
      requires budget.Valid() && (reader != null ==> reader.budget == budget) && Charge() <= budget.current
      modifies this, budget, if reader == null then {} else {reader}
      ensures budget.Valid() && budget.current == old(budget.current) - old(Charge()) && reader == null && Charge() == 0
    {
      if reader == null {
        return;
      }
      var freed := budget.Release(working);
      var ok := reader.Close();
      reader := null;
    }
  }

  // Whether an archive can be prepared where this much room is left: it opens, its payloads can be addressed
  // and share no byte, and beside what it keeps there is room to check them and then for the workspace.
  ghost predicate Prepares(data: Bytes, parsed: Parsed, files: seq<Payload>, items: seq<Item>, root: nat, room: int)
  {
    && Opens(data, parsed, room)
    && (forall p <- files :: Readable(p)) && Disjoint(files)
    && Kept(parsed) + 16 * |files| <= room
    && Kept(parsed) + 8 * 1024 * 1024 + Sum(ItemCosts(items, root)) <= room
  }

  // PrepareZIPUnpack: opened, its payload ranges checked, its workspace reserved; or nothing kept. Over an
  // honest source it prepares exactly the archives that can be prepared.
  method PrepareUnpack(source: Source, size: nat, directory: string, identity: nat, hasCancel: bool, budget: Budget, parsed: Parsed,
                       files: seq<Payload>, items: seq<Item>)
    returns (p: Prepared?)
    requires budget.Valid()
    modifies budget
    ensures budget.Valid()
    ensures if p == null then budget.current == old(budget.current)
            else fresh(p) && p.reader != null && fresh(p.reader) && p.reader.budget == budget == p.budget && !p.used && budget.current == old(budget.current) + p.Charge()
    ensures p != null ==> parsed.Entries? && p.Charge() == Kept(parsed) + 8 * 1024 * 1024 + Sum(ItemCosts(items, |directory|))
    ensures p != null ==> p.directory == directory && p.identity == identity && p.size == size
    ensures p != null ==> (forall f <- files :: Readable(f)) && Disjoint(files)
    ensures source.honest && size == |source.data| && !hasCancel ==>
              (p != null <==> Prepares(source.data, parsed, files, items, |directory|, budget.limit - old(budget.current)))
  {
    hide Opens, Kept, Disjoint, Readable, ItemCosts, Sum;
    var reader, e := OpenZipReader(source, size, hasCancel, budget, parsed);
    if reader == null {
      return null;
    }
    var ranges := ValidateRanges(budget, files, hasCancel);
    var working := None;
    var admitted := false;
    if ranges == Done {
      working := WorkingBytes(items, |directory|);
    }
    if working.Some? {
      admitted := budget.Reserve(working.value);
    }
    if !admitted {
      var closed := reader.Close();
      return null;
    }
    p := new Prepared(reader, directory, identity, size, working.value);
  }
}
