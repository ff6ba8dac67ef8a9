/** The owner of one key and one ciphertext stage (encrypted_spool.go): written once, sealed once,
    then read by at most one reader at a time. Every method runs under the owner's mutex, so a run
    is a sequence of calls. */
module EncryptedSpool {
  import opened Common
  import opened TempStream

  // A system call that may fail; on a steady machine none does.
  method Attempt(steady: bool) returns (e: Option<Error>)
    ensures steady ==> e.None?
  {
    var failed: bool := *;
    e := if failed && !steady then Some(Storage) else None;
  }

  // What the owner asked of the machine besides reading and writing, and what it was told.
  datatype Event =
    | Inspected(ok: bool)
    | Sized(extent: nat, ok: bool)
    | Polled(cancelled: bool)
    | Synced(ok: bool)
    | Cleaned(ok: bool)

  class Spool {
    const stage: Sink
    const a: Aead
    const maxPhysical: nat
    const hasCancel: bool
    const steady: bool
    var writer: Writer?
    var reader: Handle?
    var length: nat
    var extent: nat
    var sealed: bool
    var closed: bool
    var closeErr: Option<Error>

    // Everything accepted, and the handles that were handed out and gave up their turn.
    ghost var plain: Bytes
    ghost var retired: set<Handle>
    // A Seal has failed, or the owner was closed unsealed.
    ghost var abandoned: bool
    ghost var events: seq<Event>

    // Only a fresh key is used; nothing has been written.
    constructor (stage: Sink, a: Aead, maxPhysical: nat, hasCancel: bool, steady: bool)
      requires a.Valid() && a.log == [] && stage.data == [] && TAG <= maxPhysical && (steady ==> stage.reliable)
      ensures Valid() && !sealed && !closed && writer != null && plain == [] && retired == {} && !abandoned
      ensures fresh(WriterState()) && writer.err.None?
      ensures this.stage == stage && this.a == a && this.maxPhysical == maxPhysical
      ensures this.hasCancel == hasCancel && this.steady == steady
    {
      this.stage, this.a, this.maxPhysical, this.hasCancel, this.steady := stage, a, maxPhysical, hasCancel, steady;
      reader, length, extent, sealed, closed, closeErr := null, 0, 0, false, false, None;
      plain, retired, abandoned, events := [], {}, false, [];
      var w := new Writer(stage, a, maxPhysical, hasCancel);
      writer := w;
    }

    ghost function WriterState(): set<object>
      reads this
    {
      if writer == null then {} else {writer, writer.buf}
    }

    ghost predicate Base()
      reads stage, a
    {
      && a.Valid() && InOrder(a.log) && |stage.data| <= maxPhysical && TAG <= maxPhysical
      && (steady ==> stage.reliable)
    }

    // A writer set up on this stage with this key; nothing changes that.
    ghost predicate Wired(w: Writer)
    {
      w.dst == stage && w.a == a && w.maxPhysical == maxPhysical && w.hasCancel == hasCancel
    }

    ghost predicate WriterValid()
      reads this, stage, a
      reads if writer == null then {} else {writer, writer.buf}
    {
      writer != null ==>
        && Wired(writer)
        && writer.Valid() && writer.plain == plain && !writer.finished && !closed && !sealed && !abandoned
    }

    ghost predicate ReaderValid()
      reads this, a
      reads if reader == null then {} else {reader, reader.stream, reader.stream.buf}
    {
      reader != null ==>
        && sealed && !closed && reader.owner == this && reader !in retired
        && reader.stream.a == a && reader.stream.Valid() && reader.stream.plain == plain
    }

    // A sealed spool holds exactly the finished stream of its plaintext.
    ghost predicate SealedValid()
      reads this`sealed, this`writer, this`abandoned, this`length, this`extent, this`plain, stage, a
    {
      sealed ==> writer == null && !abandoned && Finished()
    }

    ghost predicate Valid()
      reads this, stage, a
      reads if writer == null then {} else {writer, writer.buf}
      reads if reader == null then {} else {reader, reader.stream, reader.stream.buf}
    {
      && Base() && WriterValid() && ReaderValid() && SealedValid()
      && (writer == null && !sealed ==> abandoned)
      && (closed ==> writer == null && reader == null)
    }

    // Over every sequence of calls no nonce reaches the AEAD twice.
    lemma NoNonceTwice()
      requires Valid()
      ensures NoncesDistinct(a.log)
    {
      InOrderDistinct(a.log);
    }

    lemma WriterFacts()
      requires Valid() && writer != null
      ensures writer.Valid() && writer.dst == stage && writer.a == a && !writer.finished && writer.plain == plain
      ensures a.Valid() && TAG <= maxPhysical && (steady ==> stage.reliable) && writer.maxPhysical == maxPhysical && writer.hasCancel == hasCancel
      ensures reader == null && !closed && !sealed && !abandoned && Wired(writer)
    {
    }

    lemma StillWriting()
      requires writer != null && Wired(writer) && writer.Valid() && writer.plain == plain && !writer.finished
      requires reader == null && !sealed && !closed && !abandoned
      requires a.Valid() && TAG <= maxPhysical && (steady ==> stage.reliable)
      ensures Valid()
    {
    }

    method Write(p: Bytes) returns (n: nat, e: Option<Error>)
      requires Valid()
      modifies this, stage, a, WriterState()
      ensures writer == old(writer) && reader == old(reader) && sealed == old(sealed) && closed == old(closed)
      ensures retired == old(retired) && abandoned == old(abandoned)
      ensures Valid() && old(a.log) <= a.log && n <= |p| && plain == old(plain) + p[..n]
      ensures e.None? ==> n == |p|
      ensures writer == null ==> n == 0 && e == Some(Closed) && a.log == old(a.log) && stage.data == old(stage.data)
      ensures writer != null && old(writer.err).None? && (p == [] || Admits(maxPhysical, old(|plain|) + |p|)) && steady && !hasCancel ==>
                e.None? && writer.err.None?
    {
      if closed || sealed || writer == null {
        return 0, Some(Closed);
      }
      hide Valid, Admits;
      n, e := WriteOn(writer, p);
    }

    method WriteOn(w: Writer, p: Bytes) returns (n: nat, e: Option<Error>)
      requires Valid() && writer == w
      modifies this`plain, stage, a, w, w.buf
      ensures Valid() && old(a.log) <= a.log && n <= |p| && plain == old(plain) + p[..n]
      ensures e.None? ==> n == |p|
      ensures old(w.err).None? && (p == [] || Admits(maxPhysical, old(|plain|) + |p|)) && steady && !hasCancel ==> e.None? && w.err.None?
    {
      hide Valid, WriterValid, ReaderValid, SealedValid, Writer.Valid, Writer.Sound, InOrder, Admits;
      WriterFacts();
      n, e := w.Write(p);
      plain := w.plain;
      StillWriting();
    }

    // A system call that may fail; on a steady machine none does.
    method Stat() returns (e: Option<Error>)
      modifies this`events
      ensures events == old(events) + [Inspected(e.None?)]
      ensures steady ==> e.None?
    {
      e := Attempt(steady);
      events := events + [Inspected(e.None?)];
    }

    method Sync() returns (e: Option<Error>)
      modifies this`events
      ensures events == old(events) + [Synced(e.None?)]
      ensures steady ==> e.None?
    {
      e := Attempt(steady);
      events := events + [Synced(e.None?)];
    }

    method Cleanup() returns (e: Option<Error>)
      modifies this`events
      ensures events == old(events) + [Cleaned(e.None?)]
      ensures steady ==> e.None?
    {
      e := Attempt(steady);
      events := events + [Cleaned(e.None?)];
    }

    method Cancelling() returns (cancelled: bool)
      modifies this`events
      ensures events == old(events) + [Polled(cancelled)]
      ensures !hasCancel ==> !cancelled
    {
      cancelled := Poll(hasCancel);
      events := events + [Polled(cancelled)];
    }

    // Stat of the stage, which nobody else resizes while it is being written.
    method CheckExtent() returns (e: Option<Error>)
      modifies this`events
      ensures events == old(events) + [Sized(extent, e.None?)]
      ensures e.None? ==> |stage.data| == extent
      ensures steady && |stage.data| == extent ==> e.None?
    {
      e := Attempt(steady);
      if e.None? && |stage.data| != extent {
        e := Some(Corrupt);
      }
      events := events + [Sized(extent, e.None?)];
    }

    // What a Seal asks once the final record is written, and has to hear: the size, no cancellation, the
    // sync, no cancellation.
    static ghost function Settled(extent: nat): seq<Event>
    {
      [Inspected(true), Sized(extent, true), Polled(false), Synced(true), Polled(false)]
    }

    // The checks after the final record.
    method Settle() returns (e: Option<Error>)
      requires steady ==> |stage.data| == extent
      modifies this`events
      ensures old(events) <= events && (e.None? <==> events == old(events) + Settled(extent))
      ensures steady && !hasCancel ==> e.None?
    {
      e := Stat();
      if e.Some? {
        return;
      }
      e := CheckExtent();
      if e.Some? {
        return;
      }
      var cancelled := Cancelling();
      if cancelled {
        return Some(Cancelled);
      }
      e := Sync();
      if e.Some? {
        return;
      }
      cancelled := Cancelling();
      e := if cancelled then Some(Cancelled) else None;
      assert events[|old(events)| + 4] == Polled(cancelled);
    }

    // The body of Seal before its deferred close of the writer.
    method TrySeal() returns (e: Option<Error>)
      requires Valid() && writer != null
      modifies this`length, this`extent, this`events, writer, writer.buf, stage, a
      ensures old(events) <= events && (e.None? <==> events == old(events) + [Polled(false)] + Settled(PhysicalSize(|plain|)))
      ensures writer.Valid() && writer.plain == plain && old(a.log) <= a.log
      ensures e.None? ==> writer.finished && writer.err.None? && length == |plain| && extent == PhysicalSize(|plain|)
      ensures steady && !hasCancel && old(writer.err).None? ==> e.None?
    {
      hide Valid, Writer.Valid, Writer.Sound, InOrder, PhysicalSize, Physical, AllEntries;
      WriterFacts();
      var cancelled := Cancelling();
      if cancelled {
        return Some(Cancelled);
      }
      if writer.err.None? {
        writer.AlwaysAdmitted();
      }
      e := writer.Finish();
      if e.Some? {
        return;
      }
      ExtentExact(|plain|);
      writer.FinishedFacts();
      PhysicalLength(a.seal, plain);
      writer.SoundFacts();
      length := writer.length;
      extent := Extent(length).value;
      e := Settle();
    }

    method SealAndClose() returns (e: Option<Error>)
      requires Valid() && writer != null
      modifies this`length, this`extent, this`events, writer, writer.buf, stage, a
      ensures Wiped(writer.buf, 0) && old(events) <= events && (e.None? <==> events == old(events) + [Polled(false)] + Settled(PhysicalSize(|plain|)))
      ensures InOrder(a.log) && |stage.data| <= maxPhysical && old(a.log) <= a.log
      ensures e.None? ==> Finished()
      ensures steady && !hasCancel && old(writer.err).None? ==> e.None?
    {
      hide Valid, Writer.Valid, Writer.Sound, InOrder, PhysicalSize, Physical, AllEntries, Admits;
      WriterFacts();
      e := TrySeal();
      if e.None? {
        writer.FinishedFacts();
      }
      writer.Close();
      writer.SoundFacts();
    }

    // A failed Seal is terminal.
    method Seal() returns (e: Option<Error>)
      requires Valid()
      modifies this, stage, a, WriterState()
      ensures Valid() && plain == old(plain) && old(a.log) <= a.log && retired == old(retired) && closed == old(closed)
      ensures writer == null && reader == old(reader)
      ensures old(writer) == null ==> e == Some(Closed) && sealed == old(sealed) && a.log == old(a.log) && abandoned == old(abandoned)
      ensures old(writer) != null ==> (e.None? <==> sealed) && (e.Some? <==> abandoned)
      ensures old(writer) != null ==> Wiped(old(writer).buf, 0) && (e.None? <==> events == old(events) + [Polled(false)] + Settled(PhysicalSize(|plain|)))
      ensures old(writer) == null ==> events == old(events)
      ensures old(writer != null && writer.err.None?) && steady && !hasCancel ==> e.None?
    {
      if closed || sealed || writer == null {
        return Some(Closed);
      }
      hide Valid, Writer.Valid, InOrder, Finished;
      WriterFacts();
      e := SealAndClose();
      writer := null;
      sealed, abandoned := e.None?, e.Some?;
      SealedIsValid();
    }

    ghost predicate Finished()
      reads this`length, this`extent, this`plain, stage, a
    {
      && length == |plain| && extent == PhysicalSize(|plain|) && Admits(maxPhysical, |plain|)
      && a.log == AllEntries(a.seal, plain) && stage.data == Physical(a.seal, plain)
    }

    lemma SealedIsValid()
      requires writer == null && reader == null && !closed && sealed == !abandoned && (sealed ==> Finished())
      requires a.Valid() && TAG <= maxPhysical && (steady ==> stage.reliable) && InOrder(a.log) && |stage.data| <= maxPhysical
      ensures Valid()
    {
    }

    // The stage may since have been tampered with; intact says whether it was not.
    method OpenReader(intact: bool) returns (h: Handle?, e: Option<Error>)
      requires Valid()
      modifies this`reader, this`events
      ensures Valid() && (e.None? <==> h != null)
      ensures h != null <==> events == old(events) + [Polled(false), Sized(extent, true)]
      ensures h != null ==>
                && sealed && !closed && old(reader) == null && reader == h && h.owner == this && fresh(h) && fresh(h.stream) && fresh(h.stream.buf) && fresh(h.stream.src)
                && h.stream.released == 0 && h.stream.err.None? && h.stream.src.honest == intact
      ensures h == null ==> reader == old(reader)
      ensures abandoned || closed || old(reader) != null ==> e == Some(Closed)
      ensures intact && steady && !hasCancel && sealed && !closed && old(reader) == null ==> h != null && h.stream.Quiet()
    {
      if closed || !sealed || reader != null {
        return null, Some(Closed);
      }
      hide Valid, Base, PhysicalSize, Physical, AllEntries, Admits, Finished, Reader.Valid;
      SealedFacts();
      e := MayOpen();
      if e.Some? {
        return null, e;
      }
      h := Attach(intact);
    }

    method MayOpen() returns (e: Option<Error>)
      modifies this`events
      ensures e.None? <==> events == old(events) + [Polled(false), Sized(extent, true)]
      ensures steady && !hasCancel && |stage.data| == extent ==> e.None?
    {
      var cancelled := Cancelling();
      if cancelled {
        return Some(Cancelled);
      }
      e := CheckExtent();
      assert events[|old(events)| + 1] == Sized(extent, e.None?);
    }

    // The handle over the sealed storage.
    method Attach(intact: bool) returns (h: Handle)
      requires Valid() && sealed && !closed && reader == null
      modifies this`reader
      ensures Valid() && reader == h && h.owner == this && fresh(h) && fresh(h.stream) && fresh(h.stream.buf) && fresh(h.stream.src)
      ensures h.stream.released == 0 && h.stream.err.None? && h.stream.src.honest == intact
      ensures intact && !hasCancel ==> h.stream.Quiet()
    {
      SealedFacts();
      hide Valid, Base, PhysicalSize, Physical, AllEntries, Admits, Finished, Reader.Valid;
      var src := new Source(intact, stage.data);
      var stream := new Reader(src, a, length, hasCancel, Some(extent), plain);
      h := new Handle(this, stream);
      reader := h;
      OpenIsValid();
    }

    lemma OpenIsValid()
      requires Base() && writer == null && ReaderValid() && sealed && !abandoned && Finished() && !closed
      ensures Valid()
    {
    }

    lemma SealedFacts()
      requires Valid() && sealed
      ensures |stage.data| == extent && extent == PhysicalSize(|plain|) && extent <= MAX_INT64 && length == |plain|
      ensures a.log == AllEntries(a.seal, plain) && stage.data == Physical(a.seal, plain)
      ensures Base() && a.Valid() && Finished() && writer == null && !abandoned
    {
      PhysicalLength(a.seal, plain);
    }

    method Length() returns (n: nat)
      requires Valid()
      ensures n == if closed || !sealed then 0 else |plain|
    {
      n := if closed || !sealed then 0 else length;
    }

    ghost function ReaderState(): set<object>
      reads this, if reader == null then {} else {reader}
    {
      if reader == null then {} else {reader.stream, reader.stream.buf}
    }

    // Wipes the buffers of whoever holds one.
    method Revoke()
      requires Valid()
      modifies WriterState(), ReaderState()
      ensures writer != null ==> Wiped(writer.buf, 0)
      ensures reader != null ==> Wiped(reader.stream.buf, 0)
      ensures Base() && (sealed ==> Finished() && !abandoned) && (reader != null ==> reader !in retired)
    {
      hide Valid, Base, PhysicalSize, Physical, AllEntries, Admits, Finished, Writer.Valid, Reader.Valid;
      CloseFacts();
      if writer != null {
        writer.Close();
      }
      if reader != null {
        reader.stream.Close();
      }
    }

    // Revokes everything; a second call returns the first answer.
    method Close() returns (e: Option<Error>)
      requires Valid()
      modifies this, WriterState(), ReaderState()
      ensures Valid() && closed && writer == null && reader == null && e == closeErr
      ensures plain == old(plain) && a.log == old(a.log) && sealed == old(sealed) && (old(abandoned) ==> abandoned)
      ensures old(closed) ==> e == old(closeErr) && events == old(events)
      ensures !old(closed) ==> events == old(events) + [Cleaned(e.None?)]
      ensures old(writer) != null ==> Wiped(old(writer).buf, 0)
      ensures old(reader) != null ==> Wiped(old(reader).stream.buf, 0)
      ensures retired == old(retired) + if old(reader) == null then {} else {old(reader)}
    {
      if closed {
        return closeErr;
      }
      hide Valid, Base, PhysicalSize, Physical, AllEntries, Admits, Finished, Writer.Valid, Reader.Valid;
      Revoke();
      MarkClosed();
      e := closeErr;
    }

    method MarkClosed()
      requires Base() && (sealed ==> Finished()) && (reader != null ==> reader !in retired)
      modifies this
      ensures Valid() && closed && writer == null && reader == null && events == old(events) + [Cleaned(closeErr.None?)]
      ensures plain == old(plain) && sealed == old(sealed) && abandoned == !sealed
      ensures retired == old(retired) + if old(reader) == null then {} else {old(reader)}
    {
      hide Valid, Base, PhysicalSize, Physical, AllEntries, Admits;
      if reader != null {
        retired := retired + {reader};
      }
      closed, abandoned, writer, reader := true, !sealed, null, null;
      closeErr := Cleanup();
      ClosedIsValid();
    }

    lemma CloseFacts()
      requires Valid()
      ensures Base() && (sealed ==> Finished() && !abandoned) && |stage.data| <= maxPhysical
      ensures writer != null ==> writer.Valid() && writer.dst == stage && writer.a == a && !sealed
      ensures reader != null ==> reader.stream.a == a && reader.stream.Valid() && writer == null && reader !in retired
    {
    }

    lemma ClosedIsValid()
      requires Base() && closed && writer == null && reader == null && abandoned == !sealed && (sealed ==> Finished())
      ensures Valid()
    {
    }
  }

  // spoolReadCloser: what OpenReader hands out.
  class Handle {
    const owner: Spool
    const stream: Reader

    constructor (owner: Spool, stream: Reader)
      ensures this.owner == owner && this.stream == stream
    {
      this.owner, this.stream := owner, stream;
    }

    // Only the live handle of an open owner returns data, and only what was written, in order.
    method Read(p: array<Byte>) returns (n: nat, e: Option<Error>)
      requires owner.Valid() && p != stream.buf
      modifies stream, stream.buf, p, stream.src`looks
      ensures owner.Valid() && n <= p.Length && p[n..] == old(p[n..])
      ensures owner.reader != this ==> n == 0 && e == Some(Closed) && stream.released == old(stream.released)
      ensures owner.reader == this ==>
                && stream.released == old(stream.released) + n && stream.released <= |owner.plain|
                && p[..n] == owner.plain[old(stream.released)..stream.released]
      ensures this in owner.retired || owner.closed ==> n == 0 && e == Some(Closed)
      ensures (n > 0 ==> e.None?) && (p.Length > 0 && n == 0 ==> e.Some?)
      ensures e == Some(EndOfFile) ==> stream.released == |owner.plain|
      ensures stream.src.honest && e == Some(EndOfFile) ==> |stream.src.data| == PhysicalSize(|owner.plain|)
      ensures owner.reader == this && old(stream.err).None? && stream.Quiet() ==>
                stream.err.None? && (p.Length > 0 ==> if old(stream.released) == |owner.plain| then e == Some(EndOfFile) else n > 0)
    {
      if owner.closed || owner.reader != this {
        return 0, Some(Closed);
      }
      hide InOrder, PhysicalSize, Physical, AllEntries, Admits, Spool.Finished, Writer.Valid, Reader.Valid, Reader.Quiet;
      n, e := stream.Read(p);
    }

    // Gives up the turn, for good.
    method Close()
      requires owner.Valid()
      modifies owner, stream, stream.buf
      ensures owner.Valid() && owner.reader == (if old(owner.reader) == this then null else old(owner.reader))
      ensures owner.retired == old(owner.retired) + if old(owner.reader) == this then {this} else {}
      ensures owner.plain == old(owner.plain) && owner.sealed == old(owner.sealed) && owner.closed == old(owner.closed)
      ensures owner.writer == old(owner.writer) && owner.abandoned == old(owner.abandoned)
      ensures old(owner.reader) == this ==> Wiped(stream.buf, 0)
    {
      if owner.reader == this {
        hide InOrder, PhysicalSize, Physical, AllEntries, Admits, Spool.Finished, Writer.Valid, Reader.Valid;
        stream.Close();
        owner.reader := null;
        owner.retired := owner.retired + {this};
      }
    }
  }

  // Reads a live handle into buffers of any non-zero sizes until an error.
  method DrainHandle(h: Handle, sizes: nat -> nat) returns (out: Bytes, e: Error)
    requires h.owner.Valid() && h.owner.reader == h && (forall i :: sizes(i) > 0)
    requires h.stream.released == 0 && h.stream.err.None?
    modifies h.stream, h.stream.buf, h.stream.src`looks
    ensures h.owner.Valid() && out <= h.owner.plain && (e == EndOfFile ==> out == h.owner.plain)
    ensures h.stream.Quiet() ==> e == EndOfFile
  {
    hide Spool.Valid, Reader.Quiet;
    out := [];
    var i: nat := 0;
    while true
      invariant h.owner.Valid() && h.stream.released <= |h.owner.plain| && out == h.owner.plain[..h.stream.released]
      invariant h.stream.Quiet() ==> h.stream.err.None?
      decreases |h.owner.plain| - h.stream.released
    {
      var p := new Byte[sizes(i)](_ => 0);
      var n, failure := h.Read(p);
      out := out + p[..n];
      if failure.Some? {
        return out, failure.value;
      }
      i := i + 1;
    }
  }

  method WriteAndSeal(s: Spool, p: Bytes)
    requires s.Valid() && s.writer != null && s.writer.err.None? && s.plain == [] && !s.closed && s.reader == null
    requires s.steady && !s.hasCancel && Admits(s.maxPhysical, |p|)
    modifies s, s.stage, s.a, s.WriterState()
    ensures s.Valid() && s.sealed && !s.closed && s.reader == null && s.plain == p
  {
    hide Spool.Valid, Writer.Valid, Admits;
    var n, failure := s.Write(p);
    assert p[..n] == p;
    var sealError := s.Seal();
  }

  // What went in comes out again.
  method ReadBack(s: Spool, sizes: nat -> nat) returns (out: Bytes, e: Error)
    requires s.Valid() && s.sealed && !s.closed && s.reader == null
    requires s.steady && !s.hasCancel && forall i :: sizes(i) > 0
    modifies s`reader, s`events
    ensures s.Valid() && out == s.plain && e == EndOfFile
  {
    hide Spool.Valid, Reader.Quiet;
    var h, openError := s.OpenReader(true);
    out, e := DrainHandle(h, sizes);
  }

  // One whole life on a steady machine, from a fresh key to Close.
  method Session(seal: (Bytes, Bytes) -> Bytes, maxPhysical: nat, p: Bytes, sizes: nat -> nat)
    returns (s: Spool, out: Bytes, e: Error)
    requires AddsTag(seal) && TAG <= maxPhysical && Admits(maxPhysical, |p|) && forall i :: sizes(i) > 0
    ensures out == p && e == EndOfFile && s.Valid() && s.sealed && NoncesDistinct(s.a.log)
  {
    var stage := new Sink(true);
    var a := new Aead(seal);
    hide Spool.Valid, Writer.Valid, Admits, NoncesDistinct, AddsTag;
    s := new Spool(stage, a, maxPhysical, false, true);
    WriteAndSeal(s, p);
    out, e := ReadBack(s, sizes);
    s.NoNonceTwice();
  }
}
