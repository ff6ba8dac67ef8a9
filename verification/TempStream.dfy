/** The authenticated temporary stream (temp_zip_stream.go): 64 KiB records framed as in the
    "Payload" section of the C2SP age specification. The AEAD is ideal: it opens exactly what it
    sealed. */
module TempStream {
  import opened Common

  type Byte = x: int | 0 <= x < 256
  type Bytes = seq<Byte>

  const BLOCK := 65536
  const TAG := 16
  const MAX_INT64 := 0x7fff_ffff_ffff_ffff
  const MAX_UINT64 := 0xffff_ffff_ffff_ffff

  datatype Error = Corrupt | Closed | Budget | Cancelled | ShortWrite | InvalidCount | Storage | EndOfFile | WrappedEof

  // ----- sizes -----

  function Records(plain: nat): nat
  {
    plain / BLOCK + if plain % BLOCK != 0 || plain / BLOCK == 0 then 1 else 0
  }

  function PhysicalSize(plain: nat): nat
  {
    plain + Records(plain) * TAG
  }

  // tempStreamExtent: refuses what a signed file size cannot hold.
  function Extent(plain: nat): Option<nat>
  {
    if plain > MAX_INT64 || Records(plain) > (MAX_INT64 - plain) / TAG then None
    else Some(plain + Records(plain) * TAG)
  }

  // It refuses nothing else, and what it accepts has fewer than 2^47 records.
  lemma ExtentExact(plain: nat)
    ensures Extent(plain).Some? <==> PhysicalSize(plain) <= MAX_INT64
    ensures Extent(plain).Some? ==> Extent(plain).value == PhysicalSize(plain) && Records(plain) < 0x8000_0000_0000
  {
  }

  lemma RecordsBound(plain: nat, k: nat)
    requires k * BLOCK < plain
    ensures k < Records(plain)
  {
  }

  // ----- nonces -----

  function BigEndian(x: nat, n: nat): Bytes
  {
    if n == 0 then [] else BigEndian(x / 256, n - 1) + [x % 256]
  }

  function BigEndianValue(b: Bytes): nat
  {
    if b == [] then 0 else 256 * BigEndianValue(b[..|b| - 1]) + b[|b| - 1]
  }

  lemma {:induction false} BigEndianRoundTrip(x: nat, n: nat)
    requires x < Pow256(n)
    ensures |BigEndian(x, n)| == n && BigEndianValue(BigEndian(x, n)) == x
  {
    if n > 0 {
      BigEndianRoundTrip(x / 256, n - 1);
      assert BigEndian(x, n)[..n - 1] == BigEndian(x / 256, n - 1);
    }
  }

  // An 88-bit big-endian counter and the final flag.
  function Nonce(record: nat, final: bool): Bytes
  {
    BigEndian(record, 11) + [if final then 1 else 0]
  }

  lemma {:induction false} BigEndianPadded(x: nat, n: nat, m: nat)
    requires x < Pow256(n)
    ensures |BigEndian(x, m)| == m
    ensures m >= n ==> BigEndian(x, m) == seq(m - n, _ => 0) + BigEndian(x, n)
    decreases m
  {
    if m > 0 {
      if n > 0 {
        BigEndianPadded(x / 256, n - 1, m - 1);
      } else {
        BigEndianPadded(0, 0, m - 1);
      }
    }
  }

  const EIGHT: nat := 8
  const ELEVEN: nat := 11

  // tempStreamNonce writes only the low eight counter bytes; for a uint64 record that is the
  // whole 88-bit counter.
  method TempStreamNonce(record: nat, final: bool) returns (n: Bytes)
    requires record <= MAX_UINT64
    ensures n == Nonce(record, final)
  {
    NonceLayout(record, final);
    var counter := LowCounterBytes(record);
    n := [0, 0, 0] + counter + [0];
    if final {
      n := n[11 := 1];
    }
  }

  // The loop over n[10], n[9], ..., n[3].
  method LowCounterBytes(record: nat) returns (n: Bytes)
    ensures |n| == 8 && n == BigEndian(record, EIGHT)
  {
    n := [];
    var left := record;
    var i := EIGHT;
    assert BigEndian(record, EIGHT) == BigEndian(left, i) + n;
    ghost var counter := BigEndian(record, EIGHT);
    hide BigEndian;
    while i > 0
      invariant 0 <= i <= EIGHT && |n| == EIGHT - i
      invariant counter == BigEndian(left, i) + n
    {
      BigEndianStep(left, i);
      assert BigEndian(left / 256, i - 1) + [left % 256] + n == BigEndian(left / 256, i - 1) + ([left % 256] + n);
      n := [left % 256] + n;
      left := left / 256;
      i := i - 1;
    }
    BigEndianStep(left, 0);
  }

  lemma BigEndianStep(x: nat, n: nat)
    ensures n > 0 ==> BigEndian(x, n) == BigEndian(x / 256, n - 1) + [x % 256]
    ensures BigEndian(x, 0) == []
  {
  }

  lemma NonceLayout(record: nat, final: bool)
    requires record <= MAX_UINT64
    ensures Nonce(record, final) == [0, 0, 0] + BigEndian(record, EIGHT) + [if final then 1 else 0]
  {
    Pow256Of8();
    BigEndianPadded(record, EIGHT, ELEVEN);
    assert seq(3, _ => 0) == [0, 0, 0];
  }

  lemma Pow256Of8()
    ensures Pow256(EIGHT) == MAX_UINT64 + 1
  {
    assert Pow256(4) == 0x1_0000_0000;
  }

  lemma NonceInjective(r1: nat, f1: bool, r2: nat, f2: bool)
    requires r1 <= MAX_UINT64 && r2 <= MAX_UINT64 && Nonce(r1, f1) == Nonce(r2, f2)
    ensures r1 == r2 && f1 == f2
  {
    Pow256Of8();
    assert Pow256(ELEVEN) == 256 * 256 * 256 * Pow256(EIGHT);
    BigEndianRoundTrip(r1, ELEVEN);
    BigEndianRoundTrip(r2, ELEVEN);
    assert Nonce(r1, f1)[..11] == BigEndian(r1, ELEVEN) && Nonce(r2, f2)[..11] == BigEndian(r2, ELEVEN);
    assert Nonce(r1, f1)[11] == Nonce(r2, f2)[11];
  }

  // ----- the ideal AEAD -----

  datatype Sealed = Sealed(nonce: Bytes, plain: Bytes, cipher: Bytes)

  // The plaintext sealed under this nonce to this ciphertext, if there is one.
  function Lookup(log: seq<Sealed>, nonce: Bytes, cipher: Bytes): Option<Bytes>
  {
    if log == [] then None
    else
      var last := log[|log| - 1];
      if last.nonce == nonce && last.cipher == cipher then Some(last.plain)
      else Lookup(log[..|log| - 1], nonce, cipher)
  }

  class Aead {
    const seal: (Bytes, Bytes) -> Bytes
    var log: seq<Sealed>

    ghost predicate Valid()
    {
      AddsTag(seal)
    }

    constructor (seal: (Bytes, Bytes) -> Bytes)
      requires AddsTag(seal)
      ensures Valid() && this.seal == seal && log == []
    {
      this.seal, log := seal, [];
    }

    method Seal(nonce: Bytes, plain: Bytes) returns (cipher: Bytes)
      modifies this
      ensures cipher == seal(nonce, plain) && log == old(log) + [Sealed(nonce, plain, cipher)]
    {
      cipher := seal(nonce, plain);
      log := log + [Sealed(nonce, plain, cipher)];
    }

    // Any other nonce and ciphertext is refused.
    method Open(nonce: Bytes, cipher: Bytes) returns (plain: Option<Bytes>)
      ensures plain == Lookup(log, nonce, cipher)
    {
      plain := Lookup(log, nonce, cipher);
    }
  }

  // ----- what a stream looks like -----

  function BlockOf(plain: Bytes, r: nat): Bytes
    requires r * BLOCK <= |plain|
  {
    if (r + 1) * BLOCK <= |plain| then plain[r * BLOCK..(r + 1) * BLOCK] else plain[r * BLOCK..]
  }

  // The records 0..k, none of them final.
  function Entries(seal: (Bytes, Bytes) -> Bytes, plain: Bytes, k: nat): seq<Sealed>
    requires k * BLOCK <= |plain|
  {
    if k == 0 then []
    else
      var b := BlockOf(plain, k - 1);
      Entries(seal, plain, k - 1) + [Sealed(Nonce(k - 1, false), b, seal(Nonce(k - 1, false), b))]
  }

  function FinalEntry(seal: (Bytes, Bytes) -> Bytes, plain: Bytes): Sealed
  {
    var r := Records(|plain|) - 1;
    var b := BlockOf(plain, r);
    Sealed(Nonce(r, true), b, seal(Nonce(r, true), b))
  }

  function AllEntries(seal: (Bytes, Bytes) -> Bytes, plain: Bytes): seq<Sealed>
  {
    Entries(seal, plain, Records(|plain|) - 1) + [FinalEntry(seal, plain)]
  }

  function Ciphertext(log: seq<Sealed>): Bytes
  {
    if log == [] then [] else Ciphertext(log[..|log| - 1]) + log[|log| - 1].cipher
  }

  // The bytes on disk after finish: a function of the plaintext alone.
  function Physical(seal: (Bytes, Bytes) -> Bytes, plain: Bytes): Bytes
  {
    Ciphertext(AllEntries(seal, plain))
  }

  lemma CiphertextAppend(log: seq<Sealed>, e: Sealed)
    ensures Ciphertext(log + [e]) == Ciphertext(log) + e.cipher
  {
    assert (log + [e])[..|log|] == log;
  }

  // Full blocks already sealed do not change when more plaintext arrives.
  lemma {:induction false} EntriesExtend(seal: (Bytes, Bytes) -> Bytes, plain: Bytes, more: Bytes, k: nat)
    requires k * BLOCK <= |plain|
    ensures Entries(seal, plain + more, k) == Entries(seal, plain, k)
  {
    if k > 0 {
      EntriesExtend(seal, plain, more, k - 1);
      assert BlockOf(plain + more, k - 1) == BlockOf(plain, k - 1);
    }
  }

  ghost predicate AddsTag(seal: (Bytes, Bytes) -> Bytes)
  {
    forall n, p :: |seal(n, p)| == |p| + TAG
  }

  lemma {:induction false} EntriesShape(seal: (Bytes, Bytes) -> Bytes, plain: Bytes, k: nat)
    requires k * BLOCK <= |plain|
    ensures |Entries(seal, plain, k)| == k
    ensures forall i :: 0 <= i < k ==>
              Entries(seal, plain, k)[i].nonce == Nonce(i, false) && Entries(seal, plain, k)[i].plain == BlockOf(plain, i)
  {
    hide Nonce, BlockOf;
    if k > 0 {
      EntriesShape(seal, plain, k - 1);
    }
  }

  lemma TagAdded(seal: (Bytes, Bytes) -> Bytes, nonce: Bytes, p: Bytes)
    requires AddsTag(seal)
    ensures |seal(nonce, p)| == |p| + TAG
  {
  }

  lemma FullBlock(plain: Bytes, k: nat)
    requires (k + 1) * BLOCK <= |plain|
    ensures |BlockOf(plain, k)| == BLOCK
  {
  }

  lemma {:induction false} EntriesSize(seal: (Bytes, Bytes) -> Bytes, plain: Bytes, k: nat)
    requires k * BLOCK <= |plain| && AddsTag(seal)
    ensures |Ciphertext(Entries(seal, plain, k))| == k * (BLOCK + TAG)
  {
    hide BlockOf, Nonce, AddsTag;
    if k > 0 {
      EntriesSize(seal, plain, k - 1);
      var b := BlockOf(plain, k - 1);
      var before, e := Entries(seal, plain, k - 1), Sealed(Nonce(k - 1, false), b, seal(Nonce(k - 1, false), b));
      FullBlock(plain, k - 1);
      TagAdded(seal, e.nonce, b);
      assert Entries(seal, plain, k) == before + [e];
      CiphertextAppend(before, e);
    }
  }

  // A finished stream takes exactly its physical size.
  lemma PhysicalLength(seal: (Bytes, Bytes) -> Bytes, plain: Bytes)
    requires AddsTag(seal)
    ensures |Physical(seal, plain)| == PhysicalSize(|plain|)
    ensures |AllEntries(seal, plain)| == Records(|plain|)
  {
    var r := Records(|plain|) - 1;
    EntriesShape(seal, plain, r);
    EntriesSize(seal, plain, r);
    CiphertextAppend(Entries(seal, plain, r), FinalEntry(seal, plain));
  }

  // No two calls of Seal got the same nonce.
  ghost predicate NoncesDistinct(log: seq<Sealed>)
  {
    forall i, j :: 0 <= i < j < |log| ==> log[i].nonce != log[j].nonce
  }

  lemma NoncesDiffer(r1: nat, f1: bool, r2: nat, f2: bool)
    requires r1 <= MAX_UINT64 && r2 <= MAX_UINT64 && (r1 != r2 || f1 != f2)
    ensures Nonce(r1, f1) != Nonce(r2, f2)
  {
    if Nonce(r1, f1) == Nonce(r2, f2) {
      NonceInjective(r1, f1, r2, f2);
    }
  }

  // The i-th call sealed record i; only the last may be final.
  ghost predicate InOrder(log: seq<Sealed>)
  {
    && |log| <= MAX_UINT64
    && (forall i :: 0 <= i < |log| - 1 ==> log[i].nonce == Nonce(i, false))
    && (log != [] ==> log[|log| - 1].nonce in {Nonce(|log| - 1, false), Nonce(|log| - 1, true)})
  }

  lemma InOrderDistinct(log: seq<Sealed>)
    requires InOrder(log)
    ensures NoncesDistinct(log)
  {
    forall i, j | 0 <= i < j < |log|
      ensures log[i].nonce != log[j].nonce
    {
      hide Nonce;
      if log[j].nonce == Nonce(j, false) {
        NoncesDiffer(i, false, j, false);
      } else {
        NoncesDiffer(i, false, j, true);
      }
    }
  }

  // ----- storage and cancellation -----

  // An io.Writer. Unless it is reliable it may stop anywhere and report anything, except a full
  // success for a partial write.
  class Sink {
    const reliable: bool
    var data: Bytes
    // What each write was answered.
    ghost var answers: seq<(int, Option<Error>)>

    constructor (reliable: bool)
      ensures this.reliable == reliable && data == []
    {
      this.reliable, data, answers := reliable, [], [];
    }

    method Write(p: Bytes) returns (n: int, e: Option<Error>)
      modifies this
      ensures old(data) <= data <= old(data) + p && answers == old(answers) + [(n, e)]
      ensures n == |p| && e.None? ==> data == old(data) + p
      ensures reliable ==> n == |p| && e.None?
    {
      var k: nat, claimed: int, failed: bool := *, *, *;
      if reliable || k >= |p| {
        data := data + p;
        n, e := if reliable then |p| else claimed, if failed && !reliable then Some(Storage) else None;
      } else {
        data := data + p[..k];
        assert old(data) + p == old(data) + p[..k] + p[k..];
        n, e := claimed, if failed || claimed == |p| then Some(Storage) else None;
      }
      answers := answers + [(n, e)];
    }
  }

  // A cancel callback; nil when absent.
  method Poll(present: bool) returns (cancelled: bool)
    ensures cancelled ==> present
  {
    var answer: bool := *;
    cancelled := present && answer;
  }

  // Nothing is left in the buffer from here on.
  ghost predicate Wiped(buf: array<Byte>, from: nat)
    reads buf
  {
    forall i :: from <= i < buf.Length ==> buf[i] == 0
  }

  ghost predicate WipedBelow(buf: array<Byte>, to: nat)
    reads buf
  {
    forall i :: 0 <= i < to && i < buf.Length ==> buf[i] == 0
  }

  // ----- the writer -----

  class Writer {
    const dst: Sink
    const a: Aead
    const buf: array<Byte>
    const maxPhysical: nat
    const hasCancel: bool
    var pending: nat
    var length: nat
    var record: nat
    var err: Option<Error>
    var finished: bool

    // Everything accepted so far.
    ghost var plain: Bytes

    constructor (dst: Sink, a: Aead, maxPhysical: nat, hasCancel: bool)
      requires dst.data == [] && a.log == [] && a.Valid()
      ensures Valid() && plain == [] && err.None? && !finished && fresh(buf)
      ensures this.dst == dst && this.a == a && this.maxPhysical == maxPhysical && this.hasCancel == hasCancel
    {
      this.dst, this.a, this.maxPhysical, this.hasCancel := dst, a, maxPhysical, hasCancel;
      buf := new Byte[BLOCK + TAG](_ => 0);
      pending, length, record, err, finished, plain := 0, 0, 0, None, false, [];
    }

    // The full blocks of plain are sealed and written; the rest waits in buf.
    ghost predicate Holding()
      reads this, buf, dst, a
    {
      && record * BLOCK + pending == length && pending <= BLOCK
      && buf.Length == BLOCK + TAG
      && |plain| == length && buf[..pending] == plain[record * BLOCK..]
      && a.log == Entries(a.seal, plain, record)
      && dst.data == Ciphertext(a.log)
      && (length > 0 ==> PhysicalSize(length) <= maxPhysical && PhysicalSize(length) <= MAX_INT64)
    }

    // Between calls a block is sealed only once a byte after it has arrived.
    ghost predicate Streaming()
      reads this, buf, dst, a
    {
      Holding() && (record > 0 ==> pending > 0)
    }

    // The buffer keeps nothing but the bytes that wait, and nothing at all after the end or a failure.
    ghost predicate Clean()
      reads this, buf
    {
      Wiped(buf, if err.Some? || finished then 0 else pending)
    }

    // What holds even after a failure.
    ghost predicate Sound()
      reads this, buf, dst, a
    {
      && a.Valid() && buf.Length == BLOCK + TAG && Clean()
      && length == |plain| && InOrder(a.log) && |dst.data| <= maxPhysical
    }

    ghost predicate Valid()
      reads this, buf, dst, a
    {
      && Sound()
      && (err.None? ==>
            if finished then
              && a.log == AllEntries(a.seal, plain) && dst.data == Physical(a.seal, plain)
              && PhysicalSize(|plain|) <= maxPhysical && PhysicalSize(|plain|) <= MAX_INT64
            else Streaming())
    }

    // Keeps the first error and wipes the buffer.
    method Fail(e: Error) returns (r: Error)
      requires buf.Length == BLOCK + TAG
      modifies this`err, buf
      ensures err == Some(r) && (r == if old(err).Some? then old(err).value else e) && Wiped(buf, 0)
    {
      if err.None? {
        err := Some(e);
      }
      Wipe();
      r := err.value;
    }

    method Wipe()
      requires buf.Length == BLOCK + TAG
      modifies buf
      ensures Wiped(buf, 0)
    {
      forall i | 0 <= i < buf.Length {
        buf[i] := 0;
      }
    }

    // The log after one more record.
    ghost function Next(final: bool): seq<Sealed>
      requires record * BLOCK <= |plain| && (!final ==> (record + 1) * BLOCK <= |plain|)
      reads this
    {
      if final then AllEntries(a.seal, plain) else Entries(a.seal, plain, record + 1)
    }

    // The buffer holds the next record and it fits.
    ghost predicate Ready(final: bool)
      reads this, buf, dst, a
    {
      && Valid() && err.None? && !finished
      && (final || pending == BLOCK)
      && PhysicalSize(|plain| + if final then 0 else 1) <= maxPhysical
      && PhysicalSize(|plain| + if final then 0 else 1) <= MAX_INT64
    }

    lemma ReadyFacts(final: bool)
      requires Ready(final)
      ensures buf.Length == BLOCK + TAG && InOrder(a.log) && |dst.data| <= maxPhysical && a.Valid()
      ensures record * BLOCK <= |plain| && (!final ==> (record + 1) * BLOCK <= |plain|)
      ensures err.None?
    {
    }

    // What sealing the buffer as this record amounts to.
    lemma NextIsOneMore(final: bool)
      requires Ready(final)
      ensures record * BLOCK <= |plain| && (!final ==> (record + 1) * BLOCK <= |plain|)
      ensures record <= MAX_UINT64 && pending <= buf.Length
      ensures var b := buf[..pending];
              var cipher := a.seal(Nonce(record, final), b);
              && Next(final) == a.log + [Sealed(Nonce(record, final), b, cipher)]
              && InOrder(Next(final)) && Ciphertext(Next(final)) == dst.data + cipher
              && |dst.data + cipher| <= maxPhysical
    {
      hide InOrder, Nonce, Ciphertext;
      NextRecord(plain, record, pending, final);
      SealNext(a.seal, plain, record, final);
    }

    // The nonce is used here, whatever happens to the bytes afterwards.
    method SealRecord(final: bool, ghost next: seq<Sealed>) returns (sealed: Bytes)
      requires Ready(final) && record * BLOCK <= |plain| && (!final ==> (record + 1) * BLOCK <= |plain|)
      requires next == Next(final)
      modifies a
      ensures a.log == next && old(a.log) <= a.log && InOrder(next) && dst.data + sealed == Ciphertext(next)
      ensures |dst.data + sealed| <= maxPhysical
    {
      NextIsOneMore(final);
      hide Nonce, Ciphertext, InOrder, Next, Ready;
      var nonce := TempStreamNonce(record, final);
      sealed := a.Seal(nonce, buf[..pending]);
    }

    method Flush(final: bool, ghost next: seq<Sealed>) returns (e: Option<Error>)
      requires Ready(final) && record * BLOCK <= |plain| && (!final ==> (record + 1) * BLOCK <= |plain|)
      requires next == Next(final)
      modifies this`err, this`record, this`pending, buf, dst, a
      ensures e == err && a.log in {old(a.log), next} && old(a.log) <= a.log && InOrder(a.log) && |dst.data| <= maxPhysical
      ensures Wiped(buf, 0)
      ensures if e.Some? then record == old(record) && pending == old(pending)
              else pending == 0 && record == old(record) + 1 && a.log == next && dst.data == Ciphertext(next)
      ensures !hasCancel && dst.reliable ==> e.None?
    {
      ReadyFacts(final);
      hide Entries, Ciphertext, InOrder, AllEntries, PhysicalSize, Next, Ready, Streaming, Valid, Aead.Valid;
      var cancelled := Poll(hasCancel);
      if cancelled {
        var r := Fail(Cancelled);
        return Some(r);
      }
      var sealed := SealRecord(final, next);
      e := WriteSealed(sealed);
      if e.None? {
        record := record + 1;
        pending := 0;
        Wipe();
      }
    }

    // What a write comes to: a count that makes no sense is an error before any other.
    static function WriteVerdict(answer: (int, Option<Error>), len: nat): Option<Error>
    {
      if !(0 <= answer.0 <= len) then Some(InvalidCount)
      else if answer.1.Some? then answer.1
      else if answer.0 < len then Some(ShortWrite)
      else None
    }

    // Only a full write with no error lets the stream go on.
    method WriteSealed(sealed: Bytes) returns (e: Option<Error>)
      requires err.None? && buf.Length == BLOCK + TAG && |dst.data + sealed| <= maxPhysical
      modifies this`err, buf, dst
      ensures e == err && |dst.data| <= maxPhysical && (e.Some? ==> Wiped(buf, 0))
      ensures e.None? ==> dst.data == old(dst.data) + sealed
      ensures dst.reliable ==> e.None?
      ensures |dst.answers| == |old(dst.answers)| + 1 && e == WriteVerdict(dst.answers[|old(dst.answers)|], |sealed|)
    {
      var n, failure := dst.Write(sealed);
      if n < 0 || n > |sealed| {
        var r := Fail(InvalidCount);
        return Some(r);
      }
      if failure.Some? {
        var r := Fail(failure.value);
        return Some(r);
      }
      if n != |sealed| {
        var r := Fail(ShortWrite);
        return Some(r);
      }
      e := None;
    }

    // copy(buf[pending:BLOCK], p): as much as the block still takes.
    method CopyIn(p: Bytes) returns (n: nat)
      requires buf.Length == BLOCK + TAG && pending <= BLOCK
      modifies buf
      ensures n == if BLOCK - pending <= |p| then BLOCK - pending else |p|
      ensures buf[..pending + n] == old(buf[..pending]) + p[..n] && (old(Wiped(buf, pending)) ==> Wiped(buf, pending + n))
    {
      n := if BLOCK - pending <= |p| then BLOCK - pending else |p|;
      for i := 0 to n
        invariant buf[..pending] == old(buf[..pending])
        invariant buf[pending..pending + i] == p[..i]
        invariant old(Wiped(buf, pending)) ==> Wiped(buf, pending + i)
      {
        buf[pending + i] := p[i];
      }
    }

    lemma SoundFacts()
      requires Valid()
      ensures Sound() && buf.Length == BLOCK + TAG && length == |plain|
      ensures InOrder(a.log) && |dst.data| <= maxPhysical && a.Valid()
    {
    }

    lemma FailedIsValid()
      requires Sound() && err.Some?
      ensures Valid()
    {
    }

    lemma StreamingFacts()
      requires Valid() && err.None? && !finished
      ensures Holding() && record * BLOCK + pending == |plain| && pending <= BLOCK
      ensures pending == BLOCK && Admits(maxPhysical, |plain| + 1) ==> Ready(false)
      ensures Admits(maxPhysical, |plain|) ==> Ready(true)
    {
    }

    lemma FlushedHolds()
      requires Sound() && record * BLOCK == |plain| && pending == 0
      requires a.log == Entries(a.seal, plain, record) && dst.data == Ciphertext(a.log)
      requires length > 0 ==> Admits(maxPhysical, length)
      ensures Holding()
    {
    }

    lemma FinishedIsValid()
      requires Sound() && err.None? && finished && Admits(maxPhysical, |plain|)
      requires a.log == AllEntries(a.seal, plain) && dst.data == Ciphertext(a.log)
      ensures Valid()
    {
    }

    lemma FinishedFacts()
      requires Valid() && err.None? && finished
      ensures a.log == AllEntries(a.seal, plain) && dst.data == Physical(a.seal, plain)
      ensures Admits(maxPhysical, |plain|)
    {
    }

    // Only an empty stream can fail to fit its final record.
    lemma AlwaysAdmitted()
      requires Valid() && err.None? && TAG <= maxPhysical
      ensures Admits(maxPhysical, |plain|)
    {
    }

    // Makes room for the next byte.
    method FlushFull() returns (e: Option<Error>)
      requires Valid() && err.None? && !finished && Admits(maxPhysical, |plain| + 1)
      modifies this`err, this`record, this`pending, buf, dst, a
      ensures e == err && Sound() && old(a.log) <= a.log
      ensures if e.None? then Holding() && pending < BLOCK else Valid()
      ensures !hasCancel && dst.reliable ==> e.None?
    {
      hide Entries, Ciphertext, InOrder, PhysicalSize, Ready, AllEntries, Holding, Valid, Nonce, BlockOf, AddsTag, Admits;
      SoundFacts();
      StreamingFacts();
      AdmitsMonotone(maxPhysical, |plain|, |plain| + 1);
      if pending != BLOCK {
        return None;
      }
      e := Flush(false, Next(false));
      if e.Some? {
        FailedIsValid();
      } else {
        FlushedHolds();
      }
    }

    // Takes as much of p as the block holds.
    method Take(p: Bytes) returns (n: nat)
      requires Sound() && Holding() && pending < BLOCK && err.None? && !finished && |p| > 0
      requires Admits(maxPhysical, |plain| + |p|)
      modifies this`plain, this`pending, this`length, buf
      ensures Valid() && 0 < n <= |p| && plain == old(plain) + p[..n]
    {
      hide Entries, Ciphertext, InOrder, AllEntries, PhysicalSize;
      n := CopyIn(p);
      BufferGrows(plain, p, n, record, pending);
      EntriesExtend(a.seal, plain, p[..n], record);
      PhysicalMonotone(|plain| + n, |plain| + |p|);
      plain := plain + p[..n];
      pending := pending + n;
      length := length + n;
    }

    // The cancel check at the head of the loop of Write, then the flush.
    method MakeRoom() returns (e: Option<Error>)
      requires Valid() && err.None? && !finished && Admits(maxPhysical, |plain| + 1)
      modifies this, buf, dst, a
      ensures plain == old(plain) && !finished
      ensures e == err && Sound() && old(a.log) <= a.log
      ensures if e.None? then Holding() && pending < BLOCK else Valid()
      ensures !hasCancel && dst.reliable ==> e.None?
    {
      SoundFacts();
      hide Valid, Sound, Holding, Admits;
      var cancelled := Poll(hasCancel);
      if cancelled {
        var r := FailValid(Cancelled);
        SoundFacts();
        return Some(r);
      }
      e := FlushFull();
    }

    // One round of the loop of Write.
    method Accept(p: Bytes) returns (n: nat, e: Option<Error>)
      requires Valid() && err.None? && !finished && |p| > 0 && Admits(maxPhysical, |plain| + |p|)
      modifies this, buf, dst, a
      ensures Valid() && !finished && e == err && n <= |p| && old(a.log) <= a.log
      ensures plain == old(plain) + p[..n]
      ensures e.None? ==> n > 0
      ensures !hasCancel && dst.reliable ==> e.None?
    {
      hide Valid, Sound, Holding, Admits, PhysicalSize;
      AdmitsMonotone(maxPhysical, |plain| + 1, |plain| + |p|);
      e := MakeRoom();
      n := 0;
      if e.None? {
        n := Take(p);
      }
    }

    method FailValid(e: Error) returns (r: Error)
      requires Valid()
      modifies this`err, buf
      ensures Valid() && err == Some(r) && (r == if old(err).Some? then old(err).value else e) && Wiped(buf, 0)
    {
      r := Fail(e);
    }

    // The loop of Write.
    method AcceptAll(p: Bytes) returns (n: nat, e: Option<Error>)
      requires Valid() && err.None? && !finished && Admits(maxPhysical, |plain| + |p|)
      modifies this, buf, dst, a
      ensures Valid() && !finished && n <= |p| && plain == old(plain) + p[..n] && e == err && old(a.log) <= a.log
      ensures e.None? ==> n == |p|
      ensures !hasCancel && dst.reliable ==> e.None?
    {
      hide Valid, Admits;
      n := 0;
      while n < |p|
        invariant Valid() && err.None? && !finished
        invariant n <= |p| && plain == old(plain) + p[..n] && old(a.log) <= a.log
        invariant Admits(maxPhysical, |plain| + (|p| - n))
      {
        var took: nat;
        took, e := Accept(p[n..]);
        PrefixGrows(p, n, took);
        n := n + took;
        if e.Some? {
          return;
        }
      }
      e := None;
    }

    // An extent the limit does not admit is refused before any byte is taken.
    method Write(p: Bytes) returns (n: nat, e: Option<Error>)
      requires Valid()
      modifies this, buf, dst, a
      ensures Valid() && finished == old(finished) && n <= |p| && plain == old(plain) + p[..n] && old(a.log) <= a.log
      ensures e.None? ==> n == |p|
      ensures old(err).Some? || finished ==>
                && n == 0 && a.log == old(a.log) && dst.data == old(dst.data)
                && e == if old(err).Some? then old(err) else Some(Closed)
      ensures old(err).None? && !finished ==>
                && e == err
                && (p != [] && !Admits(maxPhysical, old(|plain|) + |p|) ==> n == 0 && e == Some(Budget))
                && (!hasCancel && dst.reliable && (p == [] || Admits(maxPhysical, old(|plain|) + |p|)) ==> e.None?)
      ensures err.None? ==> old(err).None?
    {
      SoundFacts();
      hide Valid;
      n := 0;
      if err.Some? {
        return 0, err;
      }
      if finished {
        return 0, Some(Closed);
      }
      if |p| == 0 {
        return 0, None;
      }
      var admitted := WithinExtent(|p|);
      if !admitted {
        var r := FailValid(Budget);
        return 0, Some(r);
      }
      hide Admits;
      n, e := AcceptAll(p);
    }

    method WithinExtent(more: nat) returns (admitted: bool)
      requires length == |plain|
      ensures admitted <==> Admits(maxPhysical, |plain| + more)
    {
      ExtentExact(length + more);
      if more > MAX_UINT64 - length {
        return false;
      }
      var extent := Extent(length + more);
      admitted := extent.Some? && extent.value <= maxPhysical;
    }

    method Finish() returns (e: Option<Error>)
      requires Valid()
      modifies this, buf, dst, a
      ensures Valid() && plain == old(plain) && old(a.log) <= a.log
      ensures e.None? ==> err.None? && finished && !old(finished) && old(err).None?
      ensures old(err).Some? || old(finished) ==>
                && a.log == old(a.log) && dst.data == old(dst.data) && finished == old(finished)
                && e == if old(err).Some? then old(err) else Some(Closed)
      ensures old(err).None? && !old(finished) ==>
                && e == err
                && (!Admits(maxPhysical, |plain|) ==> e == Some(Budget))
                && (!hasCancel && dst.reliable && Admits(maxPhysical, |plain|) ==> e.None?)
    {
      SoundFacts();
      hide Valid, Sound, Admits, PhysicalSize;
      if err.Some? {
        return err;
      }
      if finished {
        return Some(Closed);
      }
      var admitted := WithinExtent(0);
      if !admitted {
        var r := FailValid(Budget);
        return Some(r);
      }
      e := FlushLast();
    }

    method FlushLast() returns (e: Option<Error>)
      requires Valid() && err.None? && !finished && Admits(maxPhysical, |plain|)
      modifies this, buf, dst, a
      ensures Valid() && plain == old(plain) && old(a.log) <= a.log && e == err && (e.None? ==> finished)
      ensures !hasCancel && dst.reliable ==> e.None?
    {
      SoundFacts();
      StreamingFacts();
      hide Entries, Ciphertext, InOrder, PhysicalSize, Ready, AllEntries, Holding, Valid, Nonce, BlockOf, AddsTag, Records, Admits;
      e := Flush(true, Next(true));
      if e.Some? {
        FailedIsValid();
      } else {
        finished := true;
        FinishedIsValid();
      }
    }

    // From here on every call is refused.
    method Close()
      requires Valid()
      modifies this`err, buf
      ensures Valid() && err.Some? && (old(err).Some? ==> err == old(err)) && Wiped(buf, 0)
    {
      var r := FailValid(Closed);
    }
  }

  lemma PrefixGrows(p: Bytes, n: nat, k: nat)
    requires n + k <= |p|
    ensures p[..n] + p[n..][..k] == p[..n + k]
  {
  }

  // The extent of so much plaintext fits in the limit and in a signed file size.
  predicate Admits(maxPhysical: nat, plain: nat)
  {
    PhysicalSize(plain) <= maxPhysical && PhysicalSize(plain) <= MAX_INT64
  }

  lemma AdmitsMonotone(maxPhysical: nat, x: nat, y: nat)
    requires x <= y && Admits(maxPhysical, y)
    ensures Admits(maxPhysical, x)
  {
    PhysicalMonotone(x, y);
  }

  lemma BufferGrows(plain: Bytes, p: Bytes, n: nat, record: nat, pending: nat)
    requires n <= |p| && record * BLOCK + pending == |plain|
    ensures plain[record * BLOCK..] + p[..n] == (plain + p[..n])[record * BLOCK..]
  {
  }

  lemma PhysicalMonotone(x: nat, y: nat)
    requires x <= y
    ensures PhysicalSize(x) <= PhysicalSize(y)
  {
  }

  // The block about to be sealed is the next block of plain, and its record fits.
  lemma NextRecord(plain: Bytes, record: nat, pending: nat, final: bool)
    requires record * BLOCK + pending == |plain| && pending <= BLOCK && (record > 0 ==> pending > 0)
    requires PhysicalSize(|plain| + if final then 0 else 1) <= MAX_INT64 && (final || pending == BLOCK)
    ensures record < 0x8000_0000_0000
    ensures final ==> record == Records(|plain|) - 1
    ensures BlockOf(plain, record) == plain[record * BLOCK..] && |plain| - record * BLOCK <= BLOCK
    ensures !final ==> (record + 1) * (BLOCK + TAG) <= PhysicalSize(|plain| + 1)
  {
  }

  function RecordEntry(seal: (Bytes, Bytes) -> Bytes, plain: Bytes, record: nat, final: bool): Sealed
    requires record * BLOCK <= |plain|
  {
    var b := BlockOf(plain, record);
    Sealed(Nonce(record, final), b, seal(Nonce(record, final), b))
  }

  // One more call of Seal extends the stream by one record.
  lemma SealNext(seal: (Bytes, Bytes) -> Bytes, plain: Bytes, record: nat, final: bool)
    requires AddsTag(seal) && record * BLOCK <= |plain| && record < MAX_UINT64
    requires if final then record == Records(|plain|) - 1 else (record + 1) * BLOCK <= |plain|
    ensures var e := RecordEntry(seal, plain, record, final);
            var log := Entries(seal, plain, record) + [e];
            && InOrder(log)
            && Ciphertext(log) == Ciphertext(Entries(seal, plain, record)) + e.cipher
            && |Ciphertext(log)| == record * (BLOCK + TAG) + |BlockOf(plain, record)| + TAG
            && log == if final then AllEntries(seal, plain) else Entries(seal, plain, record + 1)
  {
    hide Nonce, BlockOf;
    EntriesShape(seal, plain, record);
    EntriesSize(seal, plain, record);
    CiphertextAppend(Entries(seal, plain, record), RecordEntry(seal, plain, record, final));
  }

  // ----- what the AEAD opens -----

  lemma {:induction false} LookupIsEntry(log: seq<Sealed>, nonce: Bytes, cipher: Bytes)
    ensures Lookup(log, nonce, cipher).Some? ==> Sealed(nonce, Lookup(log, nonce, cipher).value, cipher) in log
  {
    if log != [] {
      LookupIsEntry(log[..|log| - 1], nonce, cipher);
    }
  }

  lemma {:induction false} LookupFinds(log: seq<Sealed>, i: nat)
    requires NoncesDistinct(log) && i < |log|
    ensures Lookup(log, log[i].nonce, log[i].cipher) == Some(log[i].plain)
  {
    if i < |log| - 1 {
      LookupFinds(log[..|log| - 1], i);
    }
  }

  // The records of a finished stream, by index.
  lemma AllEntriesAt(seal: (Bytes, Bytes) -> Bytes, plain: Bytes, r: nat)
    requires r < Records(|plain|)
    ensures r * BLOCK <= |plain| && |AllEntries(seal, plain)| == Records(|plain|)
    ensures AllEntries(seal, plain)[r] == RecordEntry(seal, plain, r, r == Records(|plain|) - 1)
  {
    hide Nonce, BlockOf, Records, Entries;
    var k := Records(|plain|) - 1;
    LastStarts(|plain|);
    EntriesShape(seal, plain, k);
    if r < k {
      EntriesAt(seal, plain, r, k);
    }
  }

  lemma LastStarts(plain: nat)
    ensures Records(plain) > 0 && (Records(plain) - 1) * BLOCK <= plain
  {
  }

  lemma {:induction false} EntriesAt(seal: (Bytes, Bytes) -> Bytes, plain: Bytes, r: nat, k: nat)
    requires r < k && k * BLOCK <= |plain|
    ensures |Entries(seal, plain, k)| == k && Entries(seal, plain, k)[r] == RecordEntry(seal, plain, r, false)
  {
    hide Nonce, BlockOf;
    EntriesShape(seal, plain, k - 1);
    if r < k - 1 {
      EntriesAt(seal, plain, r, k - 1);
    }
  }

  lemma {:induction false} EntriesPrefix(seal: (Bytes, Bytes) -> Bytes, plain: Bytes, r: nat, k: nat)
    requires r <= k && k * BLOCK <= |plain|
    ensures |Entries(seal, plain, k)| == k && |Entries(seal, plain, r)| == r
    ensures Entries(seal, plain, k)[..r] == Entries(seal, plain, r)
  {
    EntriesShape(seal, plain, k);
    EntriesShape(seal, plain, r);
    hide Nonce, BlockOf;
    if r < k {
      EntriesPrefix(seal, plain, r, k - 1);
    }
  }

  lemma AllEntriesInOrder(seal: (Bytes, Bytes) -> Bytes, plain: Bytes)
    requires Records(|plain|) <= MAX_UINT64
    ensures InOrder(AllEntries(seal, plain)) && NoncesDistinct(AllEntries(seal, plain))
  {
    EntriesShape(seal, plain, Records(|plain|) - 1);
    InOrderDistinct(AllEntries(seal, plain));
  }

  // Whatever is presented for record r, the AEAD opens nothing but block r.
  lemma OpensOnlyTheBlock(seal: (Bytes, Bytes) -> Bytes, plain: Bytes, r: nat, cipher: Bytes)
    requires r < Records(|plain|) <= MAX_UINT64
    ensures r * BLOCK <= |plain|
    ensures Lookup(AllEntries(seal, plain), Nonce(r, r == Records(|plain|) - 1), cipher) in {None, Some(BlockOf(plain, r))}
  {
    var log, last := AllEntries(seal, plain), Records(|plain|) - 1;
    var nonce := Nonce(r, r == last);
    AllEntriesAt(seal, plain, r);
    LookupIsEntry(log, nonce, cipher);
    if Lookup(log, nonce, cipher).Some? {
      var i :| 0 <= i < |log| && log[i] == Sealed(nonce, Lookup(log, nonce, cipher).value, cipher);
      AllEntriesAt(seal, plain, i);
      NonceInjective(i, i == last, r, r == last);
    }
  }

  lemma {:induction false} CiphertextAt(log: seq<Sealed>, i: nat)
    requires i < |log|
    ensures |Ciphertext(log[..i])| + |log[i].cipher| <= |Ciphertext(log)|
    ensures Ciphertext(log)[|Ciphertext(log[..i])|..][..|log[i].cipher|] == log[i].cipher
  {
    if i < |log| - 1 {
      CiphertextAt(log[..|log| - 1], i);
      assert log[..|log| - 1][..i] == log[..i];
    }
  }

  lemma RecordFacts(seal: (Bytes, Bytes) -> Bytes, plain: Bytes, r: nat)
    requires AddsTag(seal) && r < Records(|plain|) <= MAX_UINT64
    ensures r * BLOCK <= |plain| && r < |AllEntries(seal, plain)|
    ensures AllEntries(seal, plain)[..r] == Entries(seal, plain, r)
    ensures var e := AllEntries(seal, plain)[r];
            && e.nonce == Nonce(r, r == Records(|plain|) - 1) && e.plain == BlockOf(plain, r)
            && |e.cipher| == |BlockOf(plain, r)| + TAG
  {
    hide Nonce, BlockOf, Entries, Records;
    AllEntriesAt(seal, plain, r);
    var k := Records(|plain|) - 1;
    assert k * BLOCK <= |plain| by {
      AllEntriesAt(seal, plain, k);
    }
    EntriesPrefix(seal, plain, r, k);
    TakeOfAppend(Entries(seal, plain, k), FinalEntry(seal, plain), r);
  }

  lemma TakeOfAppend(log: seq<Sealed>, e: Sealed, r: nat)
    requires r <= |log|
    ensures (log + [e])[..r] == log[..r]
  {
  }

  // Where record r lies in a finished stream, and that the AEAD opens it.
  lemma RecordOnDisk(seal: (Bytes, Bytes) -> Bytes, plain: Bytes, r: nat)
    requires AddsTag(seal) && r < Records(|plain|) <= MAX_UINT64
    ensures r * BLOCK <= |plain|
    ensures r * (BLOCK + TAG) + |BlockOf(plain, r)| + TAG <= |Physical(seal, plain)|
    ensures var at := r * (BLOCK + TAG);
            var cipher := Physical(seal, plain)[at..at + |BlockOf(plain, r)| + TAG];
            Lookup(AllEntries(seal, plain), Nonce(r, r == Records(|plain|) - 1), cipher) == Some(BlockOf(plain, r))
  {
    hide Entries, AllEntries, RecordEntry, Ciphertext, Nonce, BlockOf, NoncesDistinct, InOrder, Records, Lookup;
    RecordFacts(seal, plain, r);
    AllEntriesInOrder(seal, plain);
    var log := AllEntries(seal, plain);
    LookupFinds(log, r);
    CiphertextAt(log, r);
    EntriesSize(seal, plain, r);
    SliceOfDrop(Ciphertext(log), r * (BLOCK + TAG), |log[r].cipher|);
  }

  lemma SliceOfDrop(s: Bytes, at: nat, n: nat)
    requires at + n <= |s|
    ensures s[at..][..n] == s[at..at + n]
  {
  }

  // ----- the reader -----

  // Where the last block of a plaintext begins.
  function LastBlock(plain: nat): nat
  {
    (Records(plain) - 1) * BLOCK
  }

  // What was asked of the storage, and its answer.
  datatype Look =
    | Probed(offset: nat, len: nat, n: int, e: Option<Error>)
    | Stated(extent: nat, e: Option<Error>)

  // How many bytes of data a read of len bytes at offset finds.
  function Available(data: Bytes, len: nat, offset: nat): (k: nat)
    ensures k <= len && (k > 0 ==> offset + k <= |data|) && (k < len ==> offset + k >= |data|)
  {
    if offset >= |data| then 0 else if offset + len <= |data| then len else |data| - offset
  }

  // An io.ReaderAt. An honest one holds data and never changes; any other may return anything, each
  // time anew.
  class Source {
    const honest: bool
    const data: Bytes
    // Everything asked so far.
    ghost var looks: seq<Look>

    constructor (honest: bool, data: Bytes)
      ensures this.honest == honest && this.data == data && looks == []
    {
      this.honest, this.data, looks := honest, data, [];
    }

    method ReadAt(buf: array<Byte>, len: nat, offset: nat) returns (n: int, e: Option<Error>)
      requires len <= buf.Length
      modifies buf, this`looks
      ensures looks == old(looks) + [Probed(offset, len, n, e)]
      ensures honest ==> n == Available(data, len, offset) && (n > 0 ==> buf[..n] == data[offset..offset + n])
      ensures honest ==> e in {None, Some(EndOfFile)} && (n < len ==> e.Some?) && (e.Some? ==> offset + n >= |data|)
    {
      var noise: Bytes, claimed: int, failure: Option<Error> := *, *, *;
      if honest {
        var k := Available(data, len, offset);
        CopyOut(buf, if k == 0 then [] else data[offset..offset + k]);
        n, e := k, if k < len || (failure.Some? && offset + k == |data|) then Some(EndOfFile) else None;
      } else {
        CopyOut(buf, if |noise| <= len then noise else noise[..len]);
        n, e := claimed, failure;
      }
      looks := looks + [Probed(offset, len, n, e)];
    }

    // Stat of the open file: its size, and whether it is still the same regular file.
    method CheckExtent(extent: nat) returns (e: Option<Error>)
      modifies this`looks
      ensures looks == old(looks) + [Stated(extent, e)]
      ensures honest ==> e == if |data| == extent then None else Some(Corrupt)
    {
      var failure: Option<Error> := *;
      e := if !honest then failure else if |data| == extent then None else Some(Corrupt);
      looks := looks + [Stated(extent, e)];
    }
  }

  method CopyOut(buf: array<Byte>, bytes: Bytes)
    requires |bytes| <= buf.Length
    modifies buf
    ensures buf[..|bytes|] == bytes && buf[|bytes|..] == old(buf[|bytes|..])
  {
    for i := 0 to |bytes|
      invariant buf[..i] == bytes[..i] && buf[|bytes|..] == old(buf[|bytes|..])
    {
      buf[i] := bytes[i];
    }
  }

  // Moves n bytes of buf[lo..hi] to the front of p, wiping them in buf.
  method HandOut(buf: array<Byte>, lo: nat, hi: nat, n: nat, p: array<Byte>)
    requires lo + n <= hi <= buf.Length && n <= p.Length && p != buf
    modifies buf, p
    ensures p[..n] == old(buf[lo..hi][..n]) && p[n..] == old(p[n..])
    ensures buf[lo + n..hi] == old(buf[lo..hi][n..]) && (old(WipedBelow(buf, lo)) ==> WipedBelow(buf, lo + n))
  {
    CopyOut(p, buf[lo..lo + n]);
    WipeRange(buf, lo, lo + n);
  }

  method WipeRange(buf: array<Byte>, lo: nat, hi: nat)
    requires lo <= hi <= buf.Length
    modifies buf
    ensures forall i :: 0 <= i < buf.Length ==> buf[i] == if lo <= i < hi then 0 else old(buf[i])
  {
    forall i | lo <= i < hi {
      buf[i] := 0;
    }
  }

  class Reader {
    const src: Source
    const a: Aead
    const buf: array<Byte>
    const hasCancel: bool
    // The extent the callback insists on; None when there is no callback.
    const extent: Option<nat>
    var remaining: nat
    var record: nat
    var offset: nat
    // unread is buf[lo..hi]
    var lo: nat
    var hi: nat
    var err: Option<Error>
    var final: bool

    // What was written, and how much of it has been handed out.
    ghost const plain: Bytes
    ghost var released: nat

    constructor (src: Source, a: Aead, length: nat, hasCancel: bool, extent: Option<nat>, ghost plain: Bytes)
      requires a.Valid() && a.log == AllEntries(a.seal, plain) && length == |plain| && PhysicalSize(|plain|) <= MAX_INT64
      ensures Valid() && released == 0 && err.None? && fresh(buf) && this.plain == plain
      ensures this.src == src && this.a == a && this.hasCancel == hasCancel && this.extent == extent
    {
      this.src, this.a, this.hasCancel, this.extent := src, a, hasCancel, extent;
      this.plain, released := plain, 0;
      buf := new Byte[BLOCK + TAG](_ => 0);
      remaining, record, offset, lo, hi, err, final := length, 0, 0, 0, 0, None, false;
    }

    // Where the stream stands while no error has been recorded.
    ghost predicate Positioned()
      reads this
    {
      && remaining <= |plain|
      && (if final then remaining == 0 && record == Records(|plain|) && offset == PhysicalSize(|plain|)
          else record < Records(|plain|) && remaining == |plain| - record * BLOCK && offset == record * (BLOCK + TAG))
      && released + (hi - lo) == |plain| - remaining
    }

    // What was handed out is gone from the buffer, and everything is after an error.
    ghost predicate Clean()
      reads this, buf
    {
      if err.Some? then Wiped(buf, 0) else WipedBelow(buf, lo)
    }

    ghost predicate Valid()
      reads this, a, buf
    {
      && Clean()
      && a.Valid() && a.log == AllEntries(a.seal, plain) && PhysicalSize(|plain|) <= MAX_INT64
      && buf.Length == BLOCK + TAG && lo <= hi <= buf.Length
      && released <= |plain|
      && (err.Some? ==> err.value !in {EndOfFile, WrappedEof})
      && (err.None? ==> Positioned() && buf[lo..hi] == plain[released..released + (hi - lo)])
      && (Misfit() ==> !final && released <= LastBlock(|plain|))
    }

    // Nothing in the way: the bytes the writer produced, no cancellation, the right extent.
    ghost predicate Quiet()
    {
      && src.honest && src.data == Physical(a.seal, plain) && !hasCancel
      && extent in {None, Some(|src.data|)}
    }

    // Storage that holds too little, too much, or not what the extent says.
    ghost predicate Misfit()
    {
      src.honest && (|src.data| != PhysicalSize(|plain|) || extent !in {None, Some(|src.data|)})
    }

    // Among the answers since from, the end was found where the stream ends, and the extent, if one is
    // insisted on, was right.
    ghost predicate EndSeen(from: nat, at: nat)
      reads src`looks
    {
      && from <= |src.looks| && Probed(at, 1, 0, Some(EndOfFile)) in src.looks[from..]
      && (extent.Some? ==> Stated(extent.value, None) in src.looks[from..])
    }

    // Corruption never looks like the end of the stream.
    method Fail(e: Error) returns (r: Error)
      requires Valid()
      modifies this`err, this`lo, this`hi, buf
      ensures Valid() && err == Some(r)
      ensures r == if old(err).Some? then old(err).value else if e in {EndOfFile, WrappedEof} then Corrupt else e
    {
      var shown := if e in {EndOfFile, WrappedEof} then Corrupt else e;
      if err.None? {
        err := Some(shown);
      }
      forall i | 0 <= i < buf.Length {
        buf[i] := 0;
      }
      lo, hi := 0, 0;
      r := err.value;
    }

    // What is told of an answer that ends the stream: an end in the wrong place is corruption.
    static function Told(e: Error): Error
    {
      if e in {EndOfFile, WrappedEof} then Corrupt else e
    }

    static function EndVerdict(l: Look): Error
    {
      if l.e.None? then Corrupt else Told(l.e.value)
    }

    // What a read of a record comes to: in full, and with no error but an end right after the last one.
    static function ReadVerdict(l: Look, want: nat, last: bool): Option<Error>
      requires l.Probed?
    {
      if !(0 <= l.n <= want) then Some(Corrupt)
      else if l.n < want then Some(EndVerdict(l))
      else if l.e.Some? && !(last && l.e == Some(EndOfFile)) then Some(Told(l.e.value))
      else None
    }

    // The extent callback, then a one-byte probe that must find the end.
    method ConfirmEnd(at: nat) returns (e: Option<Error>)
      requires Valid() && err.None?
      modifies this`err, this`lo, this`hi, buf, src`looks
      ensures Valid() && e == err && old(src.looks) <= src.looks
      ensures e.None? ==> lo == old(lo) && hi == old(hi) && buf[..] == old(buf[..])
      ensures e.None? ==> EndSeen(|old(src.looks)|, at)
      ensures e.Some? ==> |src.looks| > |old(src.looks)| && e == Some(EndVerdict(src.looks[|src.looks| - 1]))
      ensures src.honest ==> e == if |src.data| <= at && extent in {None, Some(|src.data|)} then None else Some(Corrupt)
    {
      hide Positioned, AllEntries, Physical, PhysicalSize, Misfit, EndSeen;
      ghost var from := |src.looks|;
      if extent.Some? {
        var failure := src.CheckExtent(extent.value);
        if failure.Some? {
          var r := Fail(failure.value);
          return Some(r);
        }
      }
      var probe := new Byte[1];
      ghost var before := src.looks;
      var n, found := src.ReadAt(probe, 1, at);
      if n != 0 || found != Some(EndOfFile) {
        var r := Fail(if found.None? || found == Some(EndOfFile) then Corrupt else found.value);
        return Some(r);
      }
      e := None;
      EndFound(from, before, at);
    }

    lemma EndFound(from: nat, before: seq<Look>, at: nat)
      requires from <= |before| && src.looks == before + [Probed(at, 1, 0, Some(EndOfFile))]
      requires extent.Some? ==> from < |before| && before[|before| - 1] == Stated(extent.value, None)
      ensures EndSeen(from, at)
    {
      var since := src.looks[from..];
      assert since[|since| - 1] == Probed(at, 1, 0, Some(EndOfFile));
      if extent.Some? {
        assert since[|since| - 2] == Stated(extent.value, None);
      }
    }

    // Nothing is unread, wherever in the buffer that nothing lay.
    method Rewind()
      requires Valid() && err.None? && lo == hi
      modifies this`lo, this`hi
      ensures Valid() && lo == hi == 0
    {
      hide AllEntries, PhysicalSize, Records;
      lo, hi := 0, 0;
    }

    // The stored record is read, checked for completeness and, if it is the last, for an end.
    method ReadRecord(want: nat, last: bool) returns (e: Option<Error>)
      requires Valid() && err.None? && lo == hi && 0 < want <= buf.Length
      modifies this`err, this`lo, this`hi, buf, src`looks
      ensures Valid() && e == err && old(src.looks) <= src.looks
      ensures e.None? ==> lo == hi
      ensures |src.looks| > |old(src.looks)| && src.looks[|old(src.looks)|].Probed?
      ensures var l := src.looks[|old(src.looks)|];
              && l.offset == offset && l.len == want && (e.None? ==> ReadVerdict(l, want, last).None?)
              && (ReadVerdict(l, want, last).Some? ==> e == ReadVerdict(l, want, last))
      ensures e.None? && last ==> EndSeen(|old(src.looks)|, offset + want)
      ensures src.honest && e.Some? ==> e == Some(Corrupt)
      ensures src.honest && e.None? && last ==> |src.data| == offset + want && extent in {None, Some(|src.data|)}
      ensures Quiet() && (if last then offset + want == |src.data| else offset + want < |src.data|) ==>
                e.None? && buf[..want] == src.data[offset..offset + want]
    {
      hide Positioned, AllEntries, Physical, PhysicalSize, Misfit, EndSeen;
      Rewind();
      var n, failure := src.ReadAt(buf, want, offset);
      if n < 0 || n > want {
        var r := Fail(Corrupt);
        return Some(r);
      }
      if n != want {
        var r := Fail(if failure.None? then Corrupt else failure.value);
        return Some(r);
      }
      if failure.Some? && (!last || failure != Some(EndOfFile)) {
        var r := Fail(failure.value);
        return Some(r);
      }
      e := None;
      if last {
        ghost var from := |src.looks|;
        e := ConfirmEnd(offset + want);
        if e.None? {
          SeenEarlier(|old(src.looks)|, from, offset + want);
        }
      }
    }

    lemma SeenEarlier(earlier: nat, from: nat, at: nat)
      requires earlier <= from && EndSeen(from, at)
      ensures EndSeen(earlier, at)
    {
      assert forall x :: x in src.looks[from..] ==> x in src.looks[earlier..];
    }

    // Replaces the empty unread slice by the next block.
    method OpenRecord(size: nat, last: bool) returns (e: Option<Error>)
      requires Valid() && err.None? && lo == hi && !final && record * BLOCK <= |plain|
      requires last == (remaining <= BLOCK) && size == (if last then remaining else BLOCK) && (last ==> !Misfit())
      modifies this`err, this`lo, this`hi, this`remaining, this`record, this`offset, this`final, buf
      ensures Valid() && e == err
      ensures e.None? ==> (hi > lo || (final && released == |plain|)) && final == last
      ensures e in {None, Some(Corrupt)}
      ensures Lookup(a.log, Nonce(old(record), last), old(buf[..size + TAG])) == Some(BlockOf(plain, old(record))) ==> e.None?
    {
      hide AllEntries, Physical, PhysicalSize, BlockOf, Records, Nonce, Lookup, Aead.Valid, Misfit, Wiped, LastBlock;
      var r := record;
      RecordShape(plain, r, remaining);
      OpensOnlyTheBlock(a.seal, plain, r, buf[..size + TAG]);
      var nonce := TempStreamNonce(r, last);
      var block := a.Open(nonce, buf[..size + TAG]);
      if block.None? {
        var failed := Fail(Corrupt);
        return Some(failed);
      }
      CopyOut(buf, block.value);
      lo, hi := 0, |block.value|;
      remaining, record, offset, final := remaining - size, r + 1, offset + (size + TAG), last;
      e := None;
    }

    // Over intact storage the next record is complete and opens.
    lemma NextOnDisk(size: nat, last: bool)
      requires Valid() && err.None? && !final
      requires last == (remaining <= BLOCK) && size == if last then remaining else BLOCK
      ensures record * BLOCK <= |plain|
      ensures last ==> offset + (size + TAG) == PhysicalSize(|plain|)
      ensures Quiet() ==>
                && (if last then offset + (size + TAG) == |src.data| else offset + (size + TAG) < |src.data|)
                && Lookup(a.log, Nonce(record, last), src.data[offset..offset + (size + TAG)]) == Some(BlockOf(plain, record))
    {
      hide AllEntries, Physical, PhysicalSize, BlockOf, Records, Nonce, Lookup;
      RecordShape(plain, record, remaining);
      if Quiet() {
        RecordOnDisk(a.seal, plain, record);
        PhysicalLength(a.seal, plain);
      }
    }

    // The next record is read; over intact storage it is the one written.
    method LoadRecord(size: nat, last: bool) returns (e: Option<Error>)
      requires Valid() && err.None? && lo == hi && !final && size <= BLOCK
      requires last == (remaining <= BLOCK) && size == if last then remaining else BLOCK
      modifies this`err, this`lo, this`hi, buf, src`looks
      ensures Valid() && e == err && old(src.looks) <= src.looks && record * BLOCK <= |plain|
      ensures e.None? ==> lo == hi
      ensures e.None? && last ==> EndSeen(|old(src.looks)|, PhysicalSize(|plain|)) && !Misfit()
      ensures src.honest && e.Some? ==> e == Some(Corrupt)
      ensures Quiet() ==> e.None? && Lookup(a.log, Nonce(record, last), buf[..size + TAG]) == Some(BlockOf(plain, record))
    {
      assert buf.Length == BLOCK + TAG;
      hide AllEntries, Physical, PhysicalSize, BlockOf, Records, Nonce, Lookup, Valid, Positioned, Quiet, EndSeen;
      NextOnDisk(size, last);
      e := ReadRecord(size + TAG, last);
    }

    method Fetch() returns (e: Option<Error>)
      requires Valid() && err.None? && lo == hi && !final
      modifies this, buf, src`looks
      ensures Valid() && e == err && released == old(released) && old(src.looks) <= src.looks
      ensures e.None? ==> hi > lo || (final && released == |plain|)
      ensures e.None? && final ==> EndSeen(|old(src.looks)|, PhysicalSize(|plain|)) && !Misfit()
      ensures src.honest && e.Some? ==> e == Some(Corrupt)
      ensures Quiet() ==> e.None?
    {
      assert buf.Length == BLOCK + TAG;
      hide AllEntries, Physical, PhysicalSize, BlockOf, Records, Nonce, Lookup, Valid, Positioned, Quiet, EndSeen, Misfit;
      var size := if remaining <= BLOCK then remaining else BLOCK;
      var last := remaining <= BLOCK;
      e := LoadRecord(size, last);
      if e.None? {
        e := OpenRecord(size, last);
      }
    }

    // copy(p, unread), wiping what was handed out.
    method Deliver(p: array<Byte>) returns (n: nat)
      requires Valid() && err.None? && p != buf
      modifies this`lo, this`released, buf, p
      ensures Valid() && n == if p.Length <= old(hi - lo) then p.Length else old(hi - lo)
      ensures released == old(released) + n
      ensures p[..n] == plain[old(released)..released] && p[n..] == old(p[n..])
    {
      hide AllEntries, PhysicalSize, Records, Aead.Valid;
      n := if p.Length <= hi - lo then p.Length else hi - lo;
      UnreadSplit(plain, released, hi - lo, n, buf[lo..hi]);
      HandOut(buf, lo, hi, n, p);
      lo := lo + n;
      released := released + n;
    }

    // Every byte handed out is the next byte written; the end is reported only after the last of
    // them, and after the storage was seen in this call to end there; any other error is kept and is not
    // an end. Storage that does not fit never gives up the last record, and over intact storage nothing
    // fails.
    method Read(p: array<Byte>) returns (n: nat, e: Option<Error>)
      requires Valid() && p != buf
      modifies this, buf, p, src`looks
      ensures Valid() && n <= p.Length && old(src.looks) <= src.looks
      ensures released == old(released) + n && p[..n] == plain[old(released)..released] && p[n..] == old(p[n..])
      ensures n > 0 ==> e.None?
      ensures p.Length > 0 && n == 0 ==> e.Some?
      ensures e == Some(EndOfFile) ==> released == |plain| && EndSeen(|old(src.looks)|, PhysicalSize(|plain|))
      ensures src.honest && e == Some(EndOfFile) ==> |src.data| == PhysicalSize(|plain|) && extent in {None, Some(|src.data|)}
      ensures if e.Some? && e != Some(EndOfFile) then err == e else err == old(err)
      ensures Misfit() ==> released <= LastBlock(|plain|) && (old(err).None? && !hasCancel && e.Some? ==> e == Some(Corrupt))
      ensures old(err).Some? ==> n == 0 && e == err == old(err)
      ensures old(err).None? && Quiet() ==> err.None? && (p.Length > 0 ==> if old(released) == |plain| then e == Some(EndOfFile) else n > 0)
    {
      n, e := 0, None;
      hide AllEntries, Physical, PhysicalSize, Records, EndSeen;
      if err.Some? {
        return 0, err;
      }
      if p.Length == 0 {
        return 0, None;
      }
      var cancelled := Poll(hasCancel);
      if cancelled {
        var r := Fail(Cancelled);
        return 0, Some(r);
      }
      if lo == hi {
        var failure, ended := Refill();
        if failure.Some? || ended {
          return 0, if ended then Some(EndOfFile) else failure;
        }
      }
      n := Deliver(p);
    }

    // What Read does when nothing is unread: the end, or the next record.
    method Refill() returns (e: Option<Error>, ended: bool)
      requires Valid() && err.None? && lo == hi
      modifies this, buf, src`looks
      ensures Valid() && e == err && released == old(released) && (e.Some? ==> !ended) && old(src.looks) <= src.looks
      ensures e.None? ==> if ended then released == |plain| else hi > lo
      ensures ended ==> EndSeen(|old(src.looks)|, PhysicalSize(|plain|)) && !Misfit()
      ensures src.honest && e.Some? ==> e == Some(Corrupt)
      ensures Quiet() ==> e.None?
    {
      if final {
        if Quiet() {
          PhysicalLength(a.seal, plain);
        }
        hide AllEntries, Physical, PhysicalSize, Records, EndSeen;
        e := ConfirmEnd(offset);
        ended := e.None?;
      } else {
        hide AllEntries, Physical, PhysicalSize, Records, EndSeen;
        e := Fetch();
        ended := e.None? && lo == hi;
      }
    }

    method Close()
      requires Valid()
      modifies this, buf
      ensures Valid() && err.Some? && released == old(released) && Wiped(buf, 0)
    {
      var r := Fail(Closed);
    }
  }

  lemma UnreadSplit(plain: Bytes, released: nat, unread: nat, n: nat, s: Bytes)
    requires n <= unread && released + unread <= |plain| && s == plain[released..released + unread]
    ensures s[..n] == plain[released..released + n] && s[n..] == plain[released + n..released + unread]
  {
  }

  // How the next record lies in the stream.
  lemma RecordShape(plain: Bytes, record: nat, remaining: nat)
    requires record < Records(|plain|) && remaining == |plain| - record * BLOCK && PhysicalSize(|plain|) <= MAX_INT64
    ensures record * BLOCK <= |plain| && Records(|plain|) <= MAX_UINT64
    ensures remaining <= BLOCK <==> record == Records(|plain|) - 1
    ensures BlockOf(plain, record) == plain[record * BLOCK..][..if remaining <= BLOCK then remaining else BLOCK]
    ensures remaining <= BLOCK ==> record * (BLOCK + TAG) + remaining + TAG == PhysicalSize(|plain|)
    ensures remaining > BLOCK ==> record * (BLOCK + TAG) + BLOCK + TAG < PhysicalSize(|plain|)
    ensures remaining == 0 ==> |plain| == 0
  {
  }

  // ----- any fragmentation of writes and reads -----

  function Concat(parts: seq<Bytes>): Bytes
  {
    if parts == [] then [] else Concat(parts[..|parts| - 1]) + parts[|parts| - 1]
  }

  lemma {:induction false} ConcatPrefix(parts: seq<Bytes>, k: nat)
    requires k <= |parts|
    ensures |Concat(parts[..k])| <= |Concat(parts)|
  {
    if k < |parts| {
      ConcatPrefix(parts[..|parts| - 1], k);
      assert parts[..|parts| - 1][..k] == parts[..k];
    } else {
      assert parts[..k] == parts;
    }
  }

  // Any split of a plaintext into Write calls, then finish, emits the same bytes.
  method WriteAll(w: Writer, parts: seq<Bytes>)
    requires w.Valid() && w.plain == [] && w.err.None? && !w.finished
    requires !w.hasCancel && w.dst.reliable && Admits(w.maxPhysical, |Concat(parts)|)
    modifies w, w.buf, w.dst, w.a
    ensures w.Valid() && w.finished && w.err.None? && w.plain == Concat(parts)
    ensures w.dst.data == Physical(w.a.seal, Concat(parts)) && w.a.log == AllEntries(w.a.seal, Concat(parts))
  {
    hide Admits, Physical, AllEntries, Writer.Valid;
    for i := 0 to |parts|
      invariant w.Valid() && w.err.None? && !w.finished && w.plain == Concat(parts[..i])
    {
      assert parts[..i + 1][..i] == parts[..i];
      ConcatPrefix(parts, i + 1);
      AdmitsMonotone(w.maxPhysical, |Concat(parts[..i + 1])|, |Concat(parts)|);
      var n, e := w.Write(parts[i]);
    }
    assert parts[..|parts|] == parts;
    var e := w.Finish();
    w.FinishedFacts();
  }

  lemma SliceThen(s: Bytes, from: nat, mid: nat, to: nat)
    requires from <= mid <= to <= |s|
    ensures s[from..mid] + s[mid..to] == s[from..to]
  {
  }

  // One read into a fresh buffer.
  method ReadSome(r: Reader, size: nat) returns (part: Bytes, e: Option<Error>)
    requires r.Valid() && size > 0
    modifies r, r.buf, r.src`looks
    ensures r.Valid() && old(r.released) <= r.released <= |r.plain| && part == r.plain[old(r.released)..r.released]
    ensures e.None? ==> r.released > old(r.released) && r.err == old(r.err)
    ensures e == Some(EndOfFile) ==> r.released == |r.plain|
    ensures old(r.err).None? && r.Quiet() && e.Some? ==> e == Some(EndOfFile)
    ensures r.Misfit() && old(r.err).None? && !r.hasCancel && e.Some? ==> e == Some(Corrupt) && r.released <= LastBlock(|r.plain|)
  {
    var p := new Byte[size](_ => 0);
    var n;
    n, e := r.Read(p);
    part := p[..n];
  }

  // Reads into buffers of any non-zero sizes until an error.
  method Drain(r: Reader, sizes: nat -> nat) returns (out: Bytes, e: Error)
    requires r.Valid() && forall i :: sizes(i) > 0
    modifies r, r.buf, r.src`looks
    ensures r.Valid() && old(r.released) <= r.released <= |r.plain| && out == r.plain[old(r.released)..r.released]
    ensures e == EndOfFile ==> r.released == |r.plain|
    ensures old(r.err).None? && r.Quiet() ==> e == EndOfFile
    ensures r.Misfit() && old(r.err).None? && !r.hasCancel ==> e == Corrupt && r.released <= LastBlock(|r.plain|)
  {
    assert r.released <= |r.plain|;
    out := [];
    var i: nat := 0;
    ghost var from := r.released;
    while true
      invariant r.Valid() && from <= r.released <= |r.plain| && out == r.plain[from..r.released]
      invariant r.err == old(r.err)
      decreases |r.plain| - r.released
    {
      ghost var before := r.released;
      var part, failure := ReadSome(r, sizes(i));
      SliceThen(r.plain, from, before, r.released);
      out := out + part;
      if failure.Some? {
        return out, failure.value;
      }
      i := i + 1;
    }
  }

  // The round trip, for every plaintext, every split into writes and every sequence of reads.
  method RoundTrip(seal: (Bytes, Bytes) -> Bytes, maxPhysical: nat, parts: seq<Bytes>, sizes: nat -> nat)
    returns (stored: Bytes, out: Bytes, e: Error)
    requires AddsTag(seal) && Admits(maxPhysical, |Concat(parts)|) && forall i :: sizes(i) > 0
    ensures out == Concat(parts) && e == EndOfFile
    ensures stored == Physical(seal, Concat(parts)) && |stored| == PhysicalSize(|Concat(parts)|)
  {
    var dst := new Sink(true);
    var a := new Aead(seal);
    var w := new Writer(dst, a, maxPhysical, false);
    WriteAll(w, parts);
    stored := dst.data;
    PhysicalLength(seal, Concat(parts));
    var src := new Source(true, stored);
    var r := new Reader(src, a, |Concat(parts)|, false, None, Concat(parts));
    out, e := Drain(r, sizes);
  }
}
