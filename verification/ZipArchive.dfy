/** Archives as they are written (sections 4.3.12 and 4.3.16 of PKWARE's APPNOTE), and that the metadata
    reader finds in them what was put there. */
module ZipArchive {
  import opened Common
  import opened ZipBudget
  import opened ZipMetadata

  function LEBytes(v: nat, n: nat): (b: Bytes)
    ensures |b| == n
  {
    if n == 0 then [] else [v % 256] + LEBytes(v / 256, n - 1)
  }

  // A field reads back as written, wherever it stands.
  lemma {:induction false} LEField(b: Bytes, at: nat, v: nat, n: nat)
    requires at + n <= |b| && b[at..at + n] == LEBytes(v, n) && v < Pow256(n)
    ensures LE(b, at, n) == v
    decreases n
  {
    if n > 0 {
      var field := b[at..at + n];
      assert field == [v % 256] + LEBytes(v / 256, n - 1);
      assert b[at] == field[0];
      assert b[at + 1..at + 1 + (n - 1)] == field[1..];
      LEField(b, at + 1, v / 256, n - 1);
    }
  }

  lemma Powers()
    ensures Pow256(2) == 0x1_0000 && Pow256(4) == 0x1_0000_0000
  {
    assert Pow256(1) == 256;
    assert Pow256(3) == 0x100_0000;
  }

  // Reading after some bytes is reading in what follows them.
  lemma {:induction false} LEAfter(a: Bytes, b: Bytes, at: nat, n: nat)
    requires at + n <= |b|
    ensures LE(a + b, |a| + at, n) == LE(b, at, n)
    decreases n
  {
    if n > 0 {
      LEAfter(a, b, at + 1, n - 1);
    }
  }

  // A central directory record: signature, 24 bytes of other fields, three lengths, 12 more bytes, and
  // name, extra field and comment.
  function RecordBytes(fixed: Bytes, more: Bytes, name: Bytes, extra: Bytes, comment: Bytes): Bytes
  {
    LEBytes(DIRECTORY_HEADER, 4) + fixed + LEBytes(|name|, 2) + LEBytes(|extra|, 2) + LEBytes(|comment|, 2) + more + name + extra + comment
  }

  lemma WrittenRecord(fixed: Bytes, more: Bytes, name: Bytes, extra: Bytes, comment: Bytes)
    requires |fixed| == 24 && |more| == 12 && |name| < 0x1_0000 && |extra| < 0x1_0000 && |comment| < 0x1_0000
    ensures IsRecord(RecordBytes(fixed, more, name, extra, comment))
  {
    var b := RecordBytes(fixed, more, name, extra, comment);
    Powers();
    hide LEBytes, LE, Pow256;
    assert b[0..4] == LEBytes(DIRECTORY_HEADER, 4) && b[28..30] == LEBytes(|name|, 2);
    assert b[30..32] == LEBytes(|extra|, 2) && b[32..34] == LEBytes(|comment|, 2);
    LEField(b, 0, DIRECTORY_HEADER, 4);
    LEField(b, 28, |name|, 2);
    LEField(b, 30, |extra|, 2);
    LEField(b, 32, |comment|, 2);
  }

  // The end record of an archive on one disk.
  function EndBytes(count: nat, size: nat, offset: nat, comment: Bytes): (b: Bytes)
    ensures |b| == 22 + |comment|
  {
    LEBytes(DIRECTORY_END, 4) + LEBytes(0, 4) + LEBytes(count, 2) + LEBytes(count, 2) + LEBytes(size, 4) + LEBytes(offset, 4)
    + LEBytes(|comment|, 2) + comment
  }

  lemma WrittenEnd(count: nat, size: nat, offset: nat, comment: Bytes)
    requires count < 0x1_0000 && size < 0x1_0000_0000 && offset < 0x1_0000_0000 && |comment| < 0x1_0000
    ensures var b := EndBytes(count, size, offset, comment);
            && LE(b, 0, 4) == DIRECTORY_END && LE(b, 10, 2) == count && LE(b, 12, 4) == size && LE(b, 16, 4) == offset
            && LE(b, 20, 2) == |comment|
  {
    var b := EndBytes(count, size, offset, comment);
    Powers();
    hide LEBytes, LE, Pow256;
    assert b[0..4] == LEBytes(DIRECTORY_END, 4) && b[10..12] == LEBytes(count, 2) && b[12..16] == LEBytes(size, 4);
    assert b[16..20] == LEBytes(offset, 4) && b[20..22] == LEBytes(|comment|, 2);
    LEField(b, 0, DIRECTORY_END, 4);
    LEField(b, 10, count, 2);
    LEField(b, 12, size, 4);
    LEField(b, 16, offset, 4);
    LEField(b, 20, |comment|, 2);
  }

  // Whole records followed by what is none are walked to their end.
  lemma {:induction false} WalkRecords(data: Bytes, at: nat, records: Bytes)
    requires at + |records| <= |data| && data[at..at + |records|] == records && Records(records)
    requires StopsAt(data, at + |records|)
    ensures Whole(data, at)
    decreases |records|
  {
    hide LE, Variable, StopsAt, CutAt, StepLength, CatalogEnd, Records;
    WalkStep(data, at);
    if records == [] {
      NothingThere(data, at);
    } else {
      var n := FirstRecord(data, at, records);
      WalkRecords(data, at + n, records[n..]);
    }
  }

  // The walk begins with the first record.
  lemma FirstRecord(data: Bytes, at: nat, records: Bytes) returns (n: nat)
    requires at + |records| <= |data| && data[at..at + |records|] == records && Records(records) && records != []
    ensures 0 < n <= |records| && Records(records[n..]) && data[at + n..at + n + |records[n..]|] == records[n..]
    ensures !StopsAt(data, at) && !CutAt(data, at) && StepLength(data, at) == n
  {
    hide LE, Variable;
    n := 46 + Variable(records);
    assert data[at..at + 46] == records[..46];
    SameHeader(records[..46], records);
    SameHeader(records[..46], records[..n]);
  }

  lemma NothingThere(data: Bytes, at: nat)
    requires at <= |data| && StopsAt(data, at)
    ensures !CutAt(data, at)
  {
  }

  function Archive(body: Bytes, records: Bytes, count: nat, comment: Bytes): Bytes
  {
    body + records + EndBytes(count, |records|, |body|, comment)
  }

  // Where the end record begins in the tail.
  function EndIn(data: Bytes, comment: Bytes): int
  {
    TailSize(|data|) - 22 - |comment|
  }

  lemma TailEnds(body: Bytes, records: Bytes, count: nat, comment: Bytes)
    requires |comment| < 0x1_0000
    ensures var data, end := Archive(body, records, count, comment), EndBytes(count, |records|, |body|, comment);
            && 0 <= EndIn(data, comment) && |Tail(data)| == EndIn(data, comment) + |end|
            && Tail(data) == Tail(data)[..EndIn(data, comment)] + end && EndAt(data, EndIn(data, comment)) == |body| + |records|
  {
    var data, end := Archive(body, records, count, comment), EndBytes(count, |records|, |body|, comment);
    hide EndBytes;
    assert data[|body| + |records|..] == end;
    assert Tail(data)[EndIn(data, comment)..] == data[|body| + |records|..];
  }

  /** Every archive of whole records, of any body, that needs no ZIP64 record and whose comment holds no
      later end record, is sound, and declares what was written. */
  lemma WrittenArchiveIsSound(body: Bytes, records: Bytes, count: nat, comment: Bytes)
    requires Records(records) && count < 0xffff && |records| < 0xffff_ffff && |body| < 0xffff_ffff && |comment| < 0x1_0000
    requires var data := Archive(body, records, count, comment);
             forall j: nat :: EndIn(data, comment) < j && j + 22 <= TailSize(|data|) ==> LE(Tail(data), j, 4) != DIRECTORY_END
    ensures var data := Archive(body, records, count, comment);
            && 0 <= EndIn(data, comment)
            && Sound(data, EndIn(data, comment), Declared(count, |records|, |body|, |body| + |records|))
  {
    var data := Archive(body, records, count, comment);
    hide EndBytes, LE, Records, Whole, Tail, Archive, EndRecord, Declaration, EndAt, EndIn;
    EndFields(body, records, count, comment);
    EndDeclared(data, EndIn(data, comment), count, |records|, |body|, |comment|);
    DirectoryIsWhole(body, records, count, comment);
  }

  lemma EndFields(body: Bytes, records: Bytes, count: nat, comment: Bytes)
    requires count < 0xffff && |records| < 0xffff_ffff && |body| < 0xffff_ffff && |comment| < 0x1_0000
    ensures var data := Archive(body, records, count, comment); var t, p := Tail(data), EndIn(data, comment);
            && |data| >= |body| + |records| && 0 <= p && p + 22 + |comment| == |t| && EndAt(data, p) == |body| + |records|
            && LE(t, p, 4) == DIRECTORY_END && LE(t, p + 10, 2) == count && LE(t, p + 12, 4) == |records| && LE(t, p + 16, 4) == |body|
            && LE(t, p + 20, 2) == |comment|
  {
    var data, end := Archive(body, records, count, comment), EndBytes(count, |records|, |body|, comment);
    hide EndBytes, LE, Tail;
    TailEnds(body, records, count, comment);
    WrittenEnd(count, |records|, |body|, comment);
    FieldsInTail(Tail(data), EndIn(data, comment), end);
  }

  lemma EndDeclared(data: Bytes, p: nat, count: nat, size: nat, offset: nat, comment: nat)
    requires p + 22 + comment <= TailSize(|data|) && count < 0xffff && size < 0xffff_ffff && offset < 0xffff_ffff
    requires var t := Tail(data);
             && LE(t, p, 4) == DIRECTORY_END && LE(t, p + 10, 2) == count && LE(t, p + 12, 4) == size && LE(t, p + 16, 4) == offset
             && LE(t, p + 20, 2) == comment
             && forall j: nat :: p < j && j + 22 <= TailSize(|data|) ==> LE(t, j, 4) != DIRECTORY_END
    ensures EndRecord(Tail(data), p) && Declaration(data, p) == Some(Declared(count, size, offset, EndAt(data, p)))
  {
    hide LE, Tail, Zip64At;
  }

  lemma FieldsInTail(tail: Bytes, p: nat, end: Bytes)
    requires |end| >= 22 && p + |end| == |tail| && tail == tail[..p] + end
    ensures LE(tail, p, 4) == LE(end, 0, 4) && LE(tail, p + 10, 2) == LE(end, 10, 2) && LE(tail, p + 12, 4) == LE(end, 12, 4)
    ensures LE(tail, p + 16, 4) == LE(end, 16, 4) && LE(tail, p + 20, 2) == LE(end, 20, 2)
  {
    hide LE;
    var a := tail[..p];
    LEAfter(a, end, 0, 4);
    LEAfter(a, end, 10, 2);
    LEAfter(a, end, 12, 4);
    LEAfter(a, end, 16, 4);
    LEAfter(a, end, 20, 2);
  }

  lemma DirectoryIsWhole(body: Bytes, records: Bytes, count: nat, comment: Bytes)
    requires Records(records) && count < 0x1_0000 && |records| < 0x1_0000_0000 && |body| < 0x1_0000_0000 && |comment| < 0x1_0000
    ensures Whole(Archive(body, records, count, comment), |body|)
  {
    var data, end := Archive(body, records, count, comment), EndBytes(count, |records|, |body|, comment);
    hide EndBytes, LE, Records, StopsAt, Whole;
    WrittenEnd(count, |records|, |body|, comment);
    Pieces(body, records, end);
    EndStops(data, |body| + |records|, end);
    WalkRecords(data, |body|, records);
  }

  lemma Pieces(a: Bytes, b: Bytes, c: Bytes)
    ensures (a + b + c)[|a|..|a| + |b|] == b && (a + b + c)[|a| + |b|..] == c
  {
  }

  lemma EndStops(data: Bytes, at: nat, end: Bytes)
    requires at <= |data| && data[at..] == end && |end| >= 22 && LE(end, 0, 4) == DIRECTORY_END
    ensures StopsAt(data, at)
  {
    hide LE;
    if |data| - at >= 46 {
      assert data[at..at + 46] == end[..46];
      LEPrefix(end[..46], end, 0, 4);
    }
  }

  // ----- archives with a ZIP64 record (sections 4.3.14 and 4.3.15) -----

  function Record64(fixed: Bytes, count: nat, size: nat, offset: nat): Bytes
  {
    LEBytes(DIRECTORY_END_64, 4) + fixed + LEBytes(count, 8) + LEBytes(size, 8) + LEBytes(offset, 8)
  }

  function Locator64(at: nat): Bytes
  {
    LEBytes(LOCATOR_64, 4) + LEBytes(0, 4) + LEBytes(at, 8) + LEBytes(1, 4)
  }

  lemma PowerOf8()
    ensures Pow256(8) == 0x1_0000_0000_0000_0000
  {
    Powers();
    assert Pow256(6) == 0x1_0000_0000_0000;
  }

  lemma WrittenRecord64(fixed: Bytes, count: nat, size: nat, offset: nat, at: nat)
    requires |fixed| == 28 && count <= MAX_UINT64 && size <= MAX_UINT64 && offset <= MAX_UINT64
    ensures var b := Record64(fixed, count, size, offset);
            |b| == 56 && LE(b, 0, 4) == DIRECTORY_END_64 && RecordDeclares(b, at) == Declared(count, size, offset, at)
  {
    var b := Record64(fixed, count, size, offset);
    Powers();
    PowerOf8();
    hide LEBytes, LE, Pow256;
    assert b[0..4] == LEBytes(DIRECTORY_END_64, 4) && b[32..40] == LEBytes(count, 8);
    assert b[40..48] == LEBytes(size, 8) && b[48..56] == LEBytes(offset, 8);
    LEField(b, 0, DIRECTORY_END_64, 4);
    LEField(b, 32, count, 8);
    LEField(b, 40, size, 8);
    LEField(b, 48, offset, 8);
  }

  lemma WrittenLocator64(at: nat)
    requires at <= MAX_UINT64
    ensures var b := Locator64(at);
            |b| == 20 && LE(b, 0, 4) == LOCATOR_64 && LE(b, 4, 4) == 0 && LE(b, 8, 8) == at && LE(b, 16, 4) == 1
  {
    var b := Locator64(at);
    Powers();
    PowerOf8();
    hide LEBytes, LE, Pow256;
    assert b[0..4] == LEBytes(LOCATOR_64, 4) && b[4..8] == LEBytes(0, 4);
    assert b[8..16] == LEBytes(at, 8) && b[16..20] == LEBytes(1, 4);
    LEField(b, 0, LOCATOR_64, 4);
    LEField(b, 4, 0, 4);
    LEField(b, 8, at, 8);
    LEField(b, 16, 1, 4);
  }

  // The end record, with a value in every field that says where the right one is.
  function Escaped(comment: Bytes): Bytes
  {
    EndBytes(0xffff, 0xffff_ffff, 0xffff_ffff, comment)
  }

  function Archive64(body: Bytes, records: Bytes, fixed: Bytes, count: nat, comment: Bytes): Bytes
  {
    var at := |body| + |records|;
    body + records + Record64(fixed, count, |records|, |body|) + Locator64(at) + Escaped(comment)
  }

  // What ends a file is what its tail ends with.
  lemma TailOf(front: Bytes, end: Bytes)
    requires 22 <= |end| <= 22 + 0xffff
    ensures var data := front + end; var p := TailSize(|data|) - |end|;
            0 <= p && Tail(data) == Tail(data)[..p] + end && |Tail(data)| == p + |end| && EndAt(data, p) == |front|
  {
    var data := front + end;
    var p := TailSize(|data|) - |end|;
    assert Tail(data)[p..] == data[|front|..] == end;
  }

  lemma Found64(data: Bytes, front: Bytes, record: Bytes, locator: Bytes, end: Bytes)
    requires data == front + record + locator + end && |record| == 56 && |locator| == 20
    requires LE(record, 0, 4) == DIRECTORY_END_64
    requires LE(locator, 0, 4) == LOCATOR_64 && LE(locator, 4, 4) == 0 && LE(locator, 8, 8) == |front| && LE(locator, 16, 4) == 1
    ensures Zip64At(data, |front| + 76) == At(|front|) && data[|front|..|front| + 56] == record
  {
    hide LE;
    assert data[|front| + 56..|front| + 76] == locator;
    assert data[|front|..|front| + 56] == record;
  }

  lemma EscapedDeclares(data: Bytes, p: nat, at: nat, comment: nat)
    requires p + 22 + comment <= TailSize(|data|) && at + 56 <= |data|
    requires var t := Tail(data);
             && LE(t, p, 4) == DIRECTORY_END && LE(t, p + 10, 2) == 0xffff && LE(t, p + 20, 2) == comment
             && forall j: nat :: p < j && j + 22 <= TailSize(|data|) ==> LE(t, j, 4) != DIRECTORY_END
    requires Zip64At(data, EndAt(data, p)) == At(at)
    ensures EndRecord(Tail(data), p) && Declaration(data, p) == Some(RecordDeclares(data[at..at + 56], at))
  {
    hide LE, Tail, Zip64At, RecordDeclares;
  }

  /** The same for every archive whose numbers stand in a ZIP64 record: what it declares is what was
      written, up to the largest 64-bit numbers. */
  lemma WrittenArchive64IsSound(body: Bytes, records: Bytes, fixed: Bytes, count: nat, comment: Bytes)
    requires Records(records) && |fixed| == 28 && count <= MAX_UINT64 && |body| + |records| <= MAX_UINT64 && |comment| < 0x1_0000
    requires var data := Archive64(body, records, fixed, count, comment);
             forall j: nat :: EndIn(data, comment) < j && j + 22 <= TailSize(|data|) ==> LE(Tail(data), j, 4) != DIRECTORY_END
    ensures var data := Archive64(body, records, fixed, count, comment);
            && 0 <= EndIn(data, comment)
            && Sound(data, EndIn(data, comment), Declared(count, |records|, |body|, |body| + |records|))
  {
    var at := |body| + |records|;
    hide LE, LEBytes, EndBytes, Records, Tail, TailSize, Record64, Locator64, RecordDeclares, Sound;
    WrittenRecord64(fixed, count, |records|, |body|, at);
    WrittenLocator64(at);
    WrittenEnd(0xffff, 0xffff_ffff, 0xffff_ffff, comment);
    var record, locator, end := Record64(fixed, count, |records|, |body|), Locator64(at), Escaped(comment);
    assert Archive64(body, records, fixed, count, comment) == body + records + record + locator + end;
    assert |end| == 22 + |comment|;
    Sound64(body, records, record, locator, end, count, |comment|);
  }

  lemma Sound64(body: Bytes, records: Bytes, record: Bytes, locator: Bytes, end: Bytes, count: nat, comment: nat)
    requires Records(records) && |record| == 56 && LE(record, 0, 4) == DIRECTORY_END_64 && |locator| == 20
    requires RecordDeclares(record, |body| + |records|) == Declared(count, |records|, |body|, |body| + |records|)
    requires LE(locator, 0, 4) == LOCATOR_64 && LE(locator, 4, 4) == 0 && LE(locator, 8, 8) == |body| + |records| && LE(locator, 16, 4) == 1
    requires |end| == 22 + comment && comment <= 0xffff
    requires LE(end, 0, 4) == DIRECTORY_END && LE(end, 10, 2) == 0xffff && LE(end, 20, 2) == comment
    requires var data := body + records + record + locator + end;
             forall j: nat :: TailSize(|data|) - |end| < j && j + 22 <= TailSize(|data|) ==> LE(Tail(data), j, 4) != DIRECTORY_END
    ensures var data := body + records + record + locator + end; var p := TailSize(|data|) - |end|;
            0 <= p && Sound(data, p, Declared(count, |records|, |body|, |body| + |records|))
  {
    var data, at := body + records + record + locator + end, |body| + |records|;
    hide LE, Records, Whole, Tail, EndRecord, Declaration, EndAt, Zip64At, RecordDeclares;
    Found64(data, body + records, record, locator, end);
    TailOf(body + records + record + locator, end);
    var p := TailSize(|data|) - |end|;
    FieldsInTail(Tail(data), p, end);
    EscapedDeclares(data, p, at, comment);
    assert data == body + records + record + (locator + end);
    Directory64IsWhole(data, body, records, record, locator + end);
  }

  lemma Directory64IsWhole(data: Bytes, body: Bytes, records: Bytes, record: Bytes, rest: Bytes)
    requires data == body + records + record + rest && Records(records) && |record| == 56 && LE(record, 0, 4) == DIRECTORY_END_64
    ensures Whole(data, |body|)
  {
    hide LE, Records, Whole;
    var at := |body| + |records|;
    assert data[|body|..at] == records;
    assert data[at..at + 46] == record[..46];
    LEPrefix(record[..46], record, 0, 4);
    WalkRecords(data, |body|, records);
  }
}
