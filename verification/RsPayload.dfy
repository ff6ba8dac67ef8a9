/** Reed-Solomon coding of payload blocks (rs.go, rs_decoder.go, padding.go): 128-byte chunks become
    136-byte words; a block below 1 MiB ends in a chunk padded as in section 6.3 of RFC 5652. */
module RsPayload {
  import opened Common

  type Byte = x: int | 0 <= x < 256
  type Bytes = seq<Byte>

  const DATA: nat := 128
  const WORD: nat := 136
  const MIB: nat := 1024 * 1024
  const CHUNKS: nat := 8192
  const FULL: nat := 1114112

  // ----- the codec -----

  /** A systematic code as the infectious library gives it: parity computes one check symbol of a
      message, correct repairs a word. */
  datatype Codec = Codec(required: nat, total: nat, parity: (Bytes, nat) -> Byte, correct: Bytes -> Option<Bytes>)

  function Checks(c: Codec, data: Bytes, n: nat): (r: Bytes)
    ensures |r| == n
  {
    if n == 0 then [] else Checks(c, data, n - 1) + [c.parity(data, c.required + n - 1)]
  }

  function EncodeWord(c: Codec, data: Bytes): (w: Bytes)
    requires |data| == c.required <= c.total
    ensures |w| == c.total && w[..c.required] == data
  {
    data + Checks(c, data, c.total - c.required)
  }

  function Distance(a: Bytes, b: Bytes): nat
    requires |a| == |b|
  {
    if a == [] then 0 else Distance(a[..|a| - 1], b[..|b| - 1]) + if a[|a| - 1] == b[|b| - 1] then 0 else 1
  }

  // Any word within half the check symbols of a code word is repaired to it.
  ghost predicate Ideal(c: Codec)
  {
    && c.required <= c.total
    && (forall w :: c.correct(w).Some? ==> |c.correct(w).value| == c.total)
    && (forall data, w: Bytes :: |data| == c.required && |w| == c.total && Distance(w, EncodeWord(c, data)) <= (c.total - c.required) / 2 ==>
          c.correct(w) == Some(EncodeWord(c, data)))
  }

  lemma {:induction false} NoDistance(a: Bytes)
    ensures Distance(a, a) == 0
  {
    if a != [] {
      NoDistance(a[..|a| - 1]);
    }
  }

  // So a code word is its own repair, and no two messages have words close to the same word.
  lemma OwnRepair(c: Codec, data: Bytes)
    requires Ideal(c) && |data| == c.required
    ensures c.correct(EncodeWord(c, data)) == Some(EncodeWord(c, data))
  {
    NoDistance(EncodeWord(c, data));
  }

  // What decoding a word means: the message of its repair.
  function Repaired(c: Codec, w: Bytes): Option<Bytes>
    requires forall v :: c.correct(v).Some? ==> |c.correct(v).value| == c.total
    requires c.required <= c.total
  {
    var r := c.correct(w);
    if r.Some? then Some(r.value[..c.required]) else None
  }

  // EncodeInto: the message, then its check symbols, in place.
  method EncodeInto(c: Codec, dst: array<Byte>, at: nat, room: nat, data: Bytes) returns (ok: bool)
    requires at + room <= dst.Length && c.required <= c.total
    modifies dst
    ensures ok <==> |data| == c.required && room == c.total
    ensures ok ==> dst[at..at + room] == EncodeWord(c, data)
    ensures forall i :: 0 <= i < dst.Length && !(at <= i < at + room) ==> dst[i] == old(dst[i])
    ensures !ok ==> dst[..] == old(dst[..])
  {
    if |data| != c.required || room != c.total {
      return false;
    }
    for i := 0 to |data|
      invariant dst[at..at + i] == data[..i]
      invariant forall j :: 0 <= j < dst.Length && !(at <= j < at + room) ==> dst[j] == old(dst[j])
    {
      dst[at + i] := data[i];
    }
    for number := c.required to c.total
      invariant dst[at..at + number] == data + Checks(c, data, number - c.required)
      invariant forall j :: 0 <= j < dst.Length && !(at <= j < at + room) ==> dst[j] == old(dst[j])
    {
      dst[at + number] := c.parity(data, number);
    }
    ok := true;
  }

  // A share: a symbol's number, and where in the codeword scratch its byte lies.
  datatype Share = Share(number: nat, slot: nat)

  ghost predicate HasNumber(shares: seq<Share>, n: nat)
  {
    exists i :: 0 <= i < |shares| && shares[i].number == n
  }

  /** RSDecoder: scratch for one word at a time, reused for every word. */
  class Decoder {
    const codec: Codec
    const shares: array<Share>
    const codeword: array<Byte>
    var parity: Byte

    ghost predicate Valid()
      reads this
    {
      Ideal(codec) && shares.Length == codec.total && codeword.Length == codec.total
    }

    constructor (codec: Codec)
      requires Ideal(codec)
      ensures Valid() && this.codec == codec && fresh(shares) && fresh(codeword)
    {
      this.codec := codec;
      shares := new Share[codec.total](i => Share(i, i));
      codeword := new Byte[codec.total](_ => 0);
      parity := 0;
    }

    // The library's Correct: it repairs the bytes behind the shares and may reorder the shares; when
    // it fails it leaves both in any state.
    method Correct() returns (ok: bool)
      requires Valid() && forall i :: 0 <= i < shares.Length ==> shares[i] == Share(i, i)
      modifies shares, codeword
      ensures ok <==> codec.correct(old(codeword[..])).Some?
      ensures ok ==> codeword[..] == codec.correct(old(codeword[..])).value
      ensures ok ==> (forall i :: 0 <= i < shares.Length ==> shares[i].slot == shares[i].number < codec.total)
      ensures ok ==> forall n :: 0 <= n < codec.total ==> HasNumber(shares[..], n)
    {
      var r := codec.correct(codeword[..]);
      ok := r.Some?;
      if ok {
        forall i | 0 <= i < codeword.Length {
          codeword[i] := r.value[i];
        }
        forall i | 0 <= i < shares.Length {
          shares[i] := Share(shares.Length - 1 - i, shares.Length - 1 - i);
        }
        forall n | 0 <= n < codec.total
          ensures HasNumber(shares[..], n)
        {
          assert shares[..][shares.Length - 1 - n].number == n;
        }
      } else {
        forall i | 0 <= i < codeword.Length {
          codeword[i] := 0;
        }
        forall i | 0 <= i < shares.Length {
          shares[i] := Share(0, 0);
        }
      }
    }

    lemma Fits()
      requires Valid()
      ensures codec.required <= codec.total
    {
    }

    // Whether the check symbols already fit: then nothing needs repair.
    method CheckParity(encoded: Bytes) returns (valid: bool)
      requires Valid() && |encoded| == codec.total
      modifies this`parity
      ensures valid <==> encoded == EncodeWord(codec, encoded[..codec.required])
    {
      hide Ideal, EncodeWord, Checks, Valid;
      Fits();
      var data := encoded[..codec.required];
      ChecksNone(codec, data);
      for number := codec.required to codec.total
        invariant encoded[codec.required..number] == Checks(codec, data, number - codec.required)
      {
        parity := codec.parity(data, number);
        if parity != encoded[number] {
          WrongSymbol(codec, encoded, number);
          return false;
        }
        ChecksNext(codec, encoded, number);
      }
      AllSymbols(codec, encoded);
      valid := true;
    }

    // DecodeInto: whatever the scratch held before, the answer is that of the codec alone.
    method DecodeInto(destination: array<Byte>, encoded: Bytes) returns (ok: bool)
      requires Valid() && destination != codeword
      modifies this`parity, shares, codeword, destination
      ensures ok <==> |encoded| == codec.total && destination.Length == codec.required && codec.correct(encoded).Some?
      ensures ok ==> destination[..] == Repaired(codec, encoded).value
      ensures !ok ==> destination[..] == old(destination[..])
    {
      if |encoded| != codec.total || destination.Length != codec.required {
        return false;
      }
      if codec.required == DATA && codec.total == WORD {
        var valid := CheckParity(encoded);
        if valid {
          OwnRepair(codec, encoded[..codec.required]);
          forall i | 0 <= i < destination.Length {
            destination[i] := encoded[i];
          }
          return true;
        }
      }
      ok := Repair(destination, encoded);
    }

    // The long way, through the scratch.
    method Repair(destination: array<Byte>, encoded: Bytes) returns (ok: bool)
      requires Valid() && destination != codeword && |encoded| == codec.total && destination.Length == codec.required
      modifies shares, codeword, destination
      ensures ok <==> codec.correct(encoded).Some?
      ensures ok ==> destination[..] == Repaired(codec, encoded).value
      ensures !ok ==> destination[..] == old(destination[..])
    {
      forall i | 0 <= i < codeword.Length {
        codeword[i] := encoded[i];
      }
      forall i | 0 <= i < shares.Length {
        shares[i] := Share(i, i);
      }
      assert codeword[..] == encoded;
      ok := Correct();
      if !ok {
        return;
      }
      CopyOut(destination, codec.correct(encoded).value);
    }

    // Shares of the message, wherever they stand now, go to their own places.
    method CopyOut(destination: array<Byte>, ghost word: Bytes)
      requires codeword[..] == word && |word| == codec.total >= codec.required == destination.Length && destination != codeword
      requires shares.Length == codec.total && (forall n :: 0 <= n < codec.total ==> HasNumber(shares[..], n))
      requires forall i :: 0 <= i < shares.Length ==> shares[i].slot == shares[i].number < codec.total
      modifies destination
      ensures destination[..] == word[..codec.required]
    {
      for i := 0 to shares.Length
        invariant forall j :: 0 <= j < i && shares[j].number < codec.required ==> destination[shares[j].number] == word[shares[j].number]
      {
        if shares[i].number < codec.required {
          destination[shares[i].number] := codeword[shares[i].slot];
        }
      }
      forall n | 0 <= n < codec.required
        ensures destination[n] == word[n]
      {
        assert HasNumber(shares[..], n);
        var i :| 0 <= i < |shares[..]| && shares[..][i].number == n;
        assert shares[i].number == n;
      }
    }
  }

  lemma ChecksNone(c: Codec, data: Bytes)
    ensures Checks(c, data, 0) == []
  {
  }

  lemma ChecksNext(c: Codec, encoded: Bytes, number: nat)
    requires c.required <= number < |encoded| && encoded[number] == c.parity(encoded[..c.required], number)
    requires encoded[c.required..number] == Checks(c, encoded[..c.required], number - c.required)
    ensures encoded[c.required..number + 1] == Checks(c, encoded[..c.required], number + 1 - c.required)
  {
    assert encoded[c.required..number + 1] == encoded[c.required..number] + [encoded[number]];
  }

  lemma AllSymbols(c: Codec, encoded: Bytes)
    requires c.required <= c.total == |encoded|
    requires encoded[c.required..c.total] == Checks(c, encoded[..c.required], c.total - c.required)
    ensures encoded == EncodeWord(c, encoded[..c.required])
  {
    assert encoded == encoded[..c.required] + encoded[c.required..c.total];
  }

  lemma WrongSymbol(c: Codec, encoded: Bytes, number: nat)
    requires c.required <= number < c.total == |encoded| && encoded[number] != c.parity(encoded[..c.required], number)
    ensures encoded != EncodeWord(c, encoded[..c.required])
  {
    ChecksAt(c, encoded[..c.required], number - c.required, c.total - c.required);
    assert EncodeWord(c, encoded[..c.required])[number] == Checks(c, encoded[..c.required], c.total - c.required)[number - c.required];
  }

  lemma {:induction false} ChecksAt(c: Codec, data: Bytes, k: nat, n: nat)
    requires k < n
    ensures Checks(c, data, n)[k] == c.parity(data, c.required + k)
  {
    if k < n - 1 {
      ChecksAt(c, data, k, n - 1);
    }
  }

  // ----- padding -----

  function Repeat(b: Byte, n: nat): (r: Bytes)
    ensures |r| == n && forall x <- r :: x == b
  {
    if n == 0 then [] else Repeat(b, n - 1) + [b]
  }

  function Pad(data: Bytes): (p: Bytes)
    ensures |p| % DATA == 0 && |p| > |data|
  {
    var n := DATA - |data| % DATA;
    data + Repeat(n, n)
  }

  // The last byte of the first 128 says how much to drop; anything else than 1..128 drops nothing.
  function Unpad(data: Bytes): Bytes
  {
    if |data| < DATA then data
    else
      var n := data[DATA - 1];
      if n > DATA || n == 0 then data else data[..DATA - n]
  }

  lemma UnpadPad(data: Bytes)
    requires |data| < DATA
    ensures |Pad(data)| == DATA && Unpad(Pad(data)) == data
  {
    var n := DATA - |data|;
    assert |data| % DATA == |data|;
    hide Repeat;
    var p := data + Repeat(n, n);
    RepeatedLast(n, n);
    assert p[DATA - 1] == n && p[..DATA - n] == data;
  }

  // A whole chunk survives unpadding exactly when its last byte is no padding length.
  lemma UnpadWhole(chunk: Bytes)
    requires |chunk| == DATA
    ensures Unpad(chunk) == chunk <==> chunk[DATA - 1] == 0 || chunk[DATA - 1] > DATA
  {
  }

  // ----- blocks -----

  ghost predicate Payload(c: Codec)
  {
    Ideal(c) && c.required == DATA && c.total == WORD
  }

  function EncodeChunks(c: Codec, data: Bytes, n: nat): (r: Bytes)
    requires c.required == DATA && c.total == WORD && n * DATA <= |data|
    ensures |r| == n * WORD
  {
    if n == 0 then [] else EncodeChunks(c, data, n - 1) + EncodeWord(c, data[(n - 1) * DATA..n * DATA])
  }

  // A block below 1 MiB always gets a padded chunk.
  function EncodeBlock(c: Codec, data: Bytes): Bytes
    requires c.required == DATA && c.total == WORD && |data| <= MIB
  {
    if |data| == MIB then EncodeChunks(c, data, CHUNKS)
    else
      var n := |data| / DATA;
      PadRest(data);
      EncodeChunks(c, data, n) + EncodeWord(c, Pad(data[n * DATA..]))
  }

  lemma PadRest(data: Bytes)
    ensures |data| / DATA * DATA <= |data| && |data[|data| / DATA * DATA..]| < DATA && |Pad(data[|data| / DATA * DATA..])| == DATA
  {
    UnpadPad(data[|data| / DATA * DATA..]);
  }

  // One word: without repair, or repaired, or its message as it stands when forced.
  function DecodeWord(c: Codec, w: Bytes, force: bool, fast: bool): (m: Option<Bytes>)
    requires |w| == WORD == c.total && c.required == DATA && forall v :: c.correct(v).Some? ==> |c.correct(v).value| == c.total
    ensures m.Some? ==> |m.value| == DATA
  {
    if fast then Some(w[..DATA])
    else if Repaired(c, w).Some? then Repaired(c, w)
    else if force then Some(w[..DATA]) else None
  }

  ghost predicate Sized(c: Codec)
  {
    c.required == DATA && c.total == WORD && forall v :: c.correct(v).Some? ==> |c.correct(v).value| == c.total
  }

  ghost function DecodeChunks(c: Codec, data: Bytes, n: nat, force: bool, fast: bool): Option<Bytes>
    requires Sized(c) && n * WORD <= |data|
  {
    if n == 0 then Some([])
    else
      var before, m := DecodeChunks(c, data, n - 1, force, fast), DecodeWord(c, data[(n - 1) * WORD..n * WORD], force, fast);
      if before.Some? && m.Some? then Some(before.value + m.value) else None
  }

  ghost function DecodeBlock(c: Codec, data: Bytes, isLast: bool, padded: bool, force: bool, fast: bool): Option<Bytes>
    requires Sized(c)
  {
    if !force && |data| % WORD != 0 then None
    else if |data| < WORD then (if force then Some(data) else None)
    else
      var n := |data| / WORD - 1;
      Whole(|data|);
      var before, m := DecodeChunks(c, data, n, force, fast), DecodeWord(c, data[n * WORD..(n + 1) * WORD], force, fast);
      if before.None? || m.None? then None
      else Some(before.value + if |data| != FULL || (isLast && padded) then Unpad(m.value) else m.value)
  }

  lemma Whole(length: nat)
    requires length >= WORD
    ensures length / WORD >= 1 && length / WORD * WORD <= length
  {
  }

  // ----- what survives -----

  // The message of word i of a block.
  function Message(data: Bytes, i: nat): (m: Bytes)
    requires i * DATA <= |data|
    ensures |m| == DATA
  {
    if (i + 1) * DATA <= |data| then data[i * DATA..(i + 1) * DATA]
    else
      UnpadPad(data[i * DATA..]);
      Pad(data[i * DATA..])
  }

  function Words(data: Bytes): nat
  {
    |data| / DATA + if |data| == MIB then 0 else 1
  }

  // Every stored word decodes to its message.
  ghost predicate Legible(c: Codec, stored: Bytes, data: Bytes, force: bool, fast: bool)
    requires Sized(c)
  {
    && |stored| == Words(data) * WORD
    && forall i :: 0 <= i < Words(data) ==> LegibleAt(c, stored, data, i, force, fast)
  }

  ghost predicate LegibleAt(c: Codec, stored: Bytes, data: Bytes, i: nat, force: bool, fast: bool)
    requires Sized(c)
  {
    && i * DATA <= |data| && (i + 1) * WORD <= |stored|
    && DecodeWord(c, stored[i * WORD..(i + 1) * WORD], force, fast) == Some(Message(data, i))
  }

  // Which blocks come back: the length of the stored block says whether the last chunk is padded,
  // except between 1 MiB - 128 and 1 MiB, where the flags must say it.
  predicate Survives(data: Bytes, isLast: bool, padded: bool)
  {
    if |data| < MIB - DATA then true
    else if |data| < MIB then isLast && padded
    else !(isLast && padded) || data[|data| - 1] == 0 || data[|data| - 1] > DATA
  }

  lemma {:induction false} ChunksLegible(c: Codec, stored: Bytes, data: Bytes, n: nat, force: bool, fast: bool)
    requires Sized(c) && Legible(c, stored, data, force, fast) && n <= Words(data) && n * DATA <= |data|
    ensures n * WORD <= |stored| && DecodeChunks(c, stored, n, force, fast) == Some(data[..n * DATA])
  {
    if n > 0 {
      ChunksLegible(c, stored, data, n - 1, force, fast);
      assert LegibleAt(c, stored, data, n - 1, force, fast);
      assert data[..(n - 1) * DATA] + data[(n - 1) * DATA..n * DATA] == data[..n * DATA];
    }
  }

  // A block whose words are legible comes back exactly when it survives.
  lemma LegibleRoundTrip(c: Codec, stored: Bytes, data: Bytes, isLast: bool, padded: bool, force: bool, fast: bool)
    requires Sized(c) && |data| <= MIB && Legible(c, stored, data, force, fast)
    ensures DecodeBlock(c, stored, isLast, padded, force, fast) == Some(data) <==> Survives(data, isLast, padded)
  {
    var n := Words(data) - 1;
    StoredSize(data);
    assert LegibleAt(c, stored, data, n, force, fast);
    hide DecodeChunks, DecodeWord, Legible, LegibleAt, Message, Unpad, Pad, Words;
    ChunksLegible(c, stored, data, n, force, fast);
    LastMessage(data);
    var m := Message(data, n);
    SameHead(data[..n * DATA], data[n * DATA..], if |stored| != FULL || (isLast && padded) then Unpad(m) else m);
    assert data[..n * DATA] + data[n * DATA..] == data;
  }

  lemma StoredSize(data: Bytes)
    requires |data| <= MIB
    ensures var n := Words(data);
            && n >= 1 && (n - 1) * DATA <= |data| && (n * WORD) / WORD == n && (n * WORD) % WORD == 0
            && (n * WORD == FULL <==> |data| >= MIB - DATA)
  {
  }

  lemma SameHead(head: Bytes, a: Bytes, b: Bytes)
    ensures head + a == head + b <==> a == b
  {
    if head + a == head + b {
      assert a == (head + a)[|head|..] && b == (head + b)[|head|..];
    }
  }

  // What the last message keeps of the last bytes of the block.
  lemma LastMessage(data: Bytes)
    requires |data| <= MIB
    ensures var n := Words(data) - 1;
            var rest := data[n * DATA..];
            if |data| < MIB then |rest| < DATA && Unpad(Message(data, n)) == rest && Message(data, n) != rest
            else Message(data, n) == rest && (Unpad(rest) == rest <==> data[|data| - 1] == 0 || data[|data| - 1] > DATA)
  {
    var n := Words(data) - 1;
    if |data| < MIB {
      UnpadPad(data[n * DATA..]);
    } else {
      UnpadWhole(data[n * DATA..]);
      assert data[n * DATA..(n + 1) * DATA] == data[n * DATA..];
    }
  }

  // The words of an encoded block are legible in every mode.
  lemma EncodedLegible(c: Codec, data: Bytes, force: bool, fast: bool)
    requires Payload(c) && |data| <= MIB
    ensures Sized(c) && Legible(c, EncodeBlock(c, data), data, force, fast)
  {
    forall i | 0 <= i < Words(data)
      ensures LegibleAt(c, EncodeBlock(c, data), data, i, force, fast)
    {
      EncodedWord(c, data, i);
      OwnRepair(c, Message(data, i));
    }
  }

  lemma {:induction false} ChunkAt(c: Codec, data: Bytes, n: nat, i: nat)
    requires c.required == DATA && c.total == WORD && i < n && n * DATA <= |data|
    ensures EncodeChunks(c, data, n)[i * WORD..(i + 1) * WORD] == EncodeWord(c, data[i * DATA..(i + 1) * DATA])
  {
    if i < n - 1 {
      ChunkAt(c, data, n - 1, i);
      assert EncodeChunks(c, data, n)[i * WORD..(i + 1) * WORD] == EncodeChunks(c, data, n - 1)[i * WORD..(i + 1) * WORD];
    }
  }

  lemma EncodedWord(c: Codec, data: Bytes, i: nat)
    requires c.required == DATA && c.total == WORD && |data| <= MIB && i < Words(data)
    ensures i * DATA <= |data| && |EncodeBlock(c, data)| == Words(data) * WORD
    ensures EncodeBlock(c, data)[i * WORD..(i + 1) * WORD] == EncodeWord(c, Message(data, i))
  {
    hide EncodeWord, Pad, EncodeChunks;
    PadRest(data);
    EncodedWordAt(c, data, |data| / DATA, i, EncodeBlock(c, data));
  }

  lemma EncodedWordAt(c: Codec, data: Bytes, n: nat, i: nat, block: Bytes)
    requires c.required == DATA && c.total == WORD && |data| <= MIB && n * DATA <= |data| < (n + 1) * DATA
    requires |Pad(data[n * DATA..])| == DATA
    requires if |data| == MIB then i < n && block == EncodeChunks(c, data, n)
             else i <= n && block == EncodeChunks(c, data, n) + EncodeWord(c, Pad(data[n * DATA..]))
    ensures i * DATA <= |data| && (i + 1) * WORD <= |block|
    ensures |block| == if |data| == MIB then n * WORD else (n + 1) * WORD
    ensures block[i * WORD..(i + 1) * WORD] == EncodeWord(c, Message(data, i))
  {
    hide EncodeWord, Pad, EncodeChunks;
    if i < n {
      ChunkAt(c, data, n, i);
      if |data| < MIB {
        SliceLeft(EncodeChunks(c, data, n), EncodeWord(c, Pad(data[n * DATA..])), i * WORD, (i + 1) * WORD);
      }
    } else {
      SliceRight(EncodeChunks(c, data, n), EncodeWord(c, Pad(data[n * DATA..])));
    }
  }

  lemma SliceLeft(a: Bytes, b: Bytes, lo: nat, hi: nat)
    requires lo <= hi <= |a|
    ensures (a + b)[lo..hi] == a[lo..hi]
  {
  }

  lemma SliceRight(a: Bytes, b: Bytes)
    ensures (a + b)[|a|..|a| + |b|] == b
  {
  }

  // Up to four wrong bytes in every word.
  ghost predicate Damaged(stored: Bytes, original: Bytes)
  {
    && |stored| == |original|
    && forall i :: 0 <= i < |original| / WORD ==> DamagedAt(stored, original, i)
  }

  ghost predicate DamagedAt(stored: Bytes, original: Bytes, i: nat)
  {
    && (i + 1) * WORD <= |stored| == |original|
    && Distance(stored[i * WORD..(i + 1) * WORD], original[i * WORD..(i + 1) * WORD]) <= 4
  }

  lemma DamagedLegible(c: Codec, stored: Bytes, data: Bytes, force: bool)
    requires Payload(c) && |data| <= MIB && Damaged(stored, EncodeBlock(c, data))
    ensures Sized(c) && Legible(c, stored, data, force, false)
  {
    EncodedWord(c, data, 0);
    forall i | 0 <= i < Words(data)
      ensures LegibleAt(c, stored, data, i, force, false)
    {
      EncodedWord(c, data, i);
      assert DamagedAt(stored, EncodeBlock(c, data), i);
      Nearby(c, stored[i * WORD..(i + 1) * WORD], Message(data, i));
    }
  }

  lemma Nearby(c: Codec, w: Bytes, m: Bytes)
    requires Payload(c) && |m| == DATA && |w| == WORD && Distance(w, EncodeWord(c, m)) <= 4
    ensures Repaired(c, w) == Some(m)
  {
  }

  // The round trip: intact, in every mode.
  lemma RoundTrip(c: Codec, data: Bytes, isLast: bool, padded: bool, force: bool, fast: bool)
    requires Payload(c) && |data| <= MIB
    ensures Sized(c)
    ensures DecodeBlock(c, EncodeBlock(c, data), isLast, padded, force, fast) == Some(data) <==> Survives(data, isLast, padded)
  {
    EncodedLegible(c, data, force, fast);
    LegibleRoundTrip(c, EncodeBlock(c, data), data, isLast, padded, force, fast);
  }

  // A full block of ones, read back as a padded last block, in no mode comes back whole.
  lemma PaddedBlockLosesTail(c: Codec, force: bool, fast: bool)
    requires Payload(c)
    ensures Sized(c)
    ensures var ones := Repeat(1, MIB); |ones| == MIB && DecodeBlock(c, EncodeBlock(c, ones), true, true, force, fast) != Some(ones)
  {
    var ones := Repeat(1, MIB);
    RepeatedLast(1, MIB);
    hide Payload, Repeat;
    RoundTrip(c, ones, true, true, force, fast);
  }

  lemma RepeatedLast(b: Byte, n: nat)
    requires n > 0
    ensures |Repeat(b, n)| == n && Repeat(b, n)[n - 1] == b
  {
    hide MIB;
  }

  // The same after damage, with repair.
  lemma RepairedRoundTrip(c: Codec, data: Bytes, stored: Bytes, isLast: bool, padded: bool, force: bool)
    requires Payload(c) && |data| <= MIB && Damaged(stored, EncodeBlock(c, data))
    ensures Sized(c)
    ensures DecodeBlock(c, stored, isLast, padded, force, false) == Some(data) <==> Survives(data, isLast, padded)
  {
    DamagedLegible(c, stored, data, force);
    LegibleRoundTrip(c, stored, data, isLast, padded, force, false);
  }

  // ----- the methods -----

  // EncodeRSPayloadBlock: the buffer is sized up front, the words are written into it one by one.
  method EncodePayloadBlock(c: Codec, data: Bytes) returns (out: Bytes)
    requires c.required == DATA && c.total == WORD && |data| <= MIB
    ensures out == EncodeBlock(c, data)
  {
    var n := |data| / DATA;
    PadRest(data);
    var chunks := (|data| + DATA - 1) / DATA + if |data| < MIB then 1 else 0;
    EnoughRoom(|data|);
    hide EncodeWord, Pad, EncodeChunks;
    var result := new Byte[chunks * WORD](_ => 0);
    EncodeAll(c, result, data, n);
    if |data| == MIB {
      out := result[..];
      return;
    }
    ghost var before := result[..n * WORD];
    var ok := EncodeInto(c, result, n * WORD, WORD, Pad(data[n * DATA..]));
    assert result[..n * WORD] == before;
    out := result[..(n + 1) * WORD];
    assert out == result[..n * WORD] + result[n * WORD..n * WORD + WORD];
  }

  lemma EnoughRoom(length: nat)
    requires length <= MIB
    ensures var chunks := (length + DATA - 1) / DATA + if length < MIB then 1 else 0;
            length / DATA * DATA <= length && (if length == MIB then chunks == length / DATA == CHUNKS else chunks >= length / DATA + 1)
  {
  }

  method EncodeAll(c: Codec, result: array<Byte>, data: Bytes, n: nat)
    requires c.required == DATA && c.total == WORD && n * DATA <= |data| && n * WORD <= result.Length
    modifies result
    ensures result[..n * WORD] == EncodeChunks(c, data, n)
  {
    hide EncodeWord;
    for i := 0 to n
      invariant result[..i * WORD] == EncodeChunks(c, data, i)
    {
      ghost var before := result[..i * WORD];
      var ok := EncodeInto(c, result, i * WORD, WORD, data[i * DATA..(i + 1) * DATA]);
      assert result[..i * WORD] == before;
      assert result[..(i + 1) * WORD] == result[..i * WORD] + result[i * WORD..i * WORD + WORD];
    }
  }

  // Decode: without repair for payload words when fast, else through a decoder; after a failed repair
  // the message part as it stands.
  method Decode(c: Codec, data: Bytes, fast: bool) returns (out: Bytes, ok: bool)
    requires Ideal(c)
    ensures |data| != c.total ==> !ok && out == []
    ensures |data| == c.total == WORD && c.required == DATA ==>
              Sized(c) && |out| == DATA && (ok <==> DecodeWord(c, data, false, fast).Some?)
              && Some(out) == DecodeWord(c, data, true, fast)
    ensures |data| == c.total && !fast ==>
              (ok <==> Repaired(c, data).Some?) && (ok ==> Repaired(c, data) == Some(out))
              && (!ok && c.total != WORD ==> out == data[..c.total / 3])
  {
    if |data| != c.total {
      return [], false;
    }
    if c.total == WORD && c.required == DATA && fast {
      return data[..DATA], true;
    }
    var decoder := new Decoder(c);
    var res := new Byte[c.required](_ => 0);
    ok := decoder.DecodeInto(res, data);
    if ok {
      out := res[..];
    } else {
      out := data[..if c.total == WORD then DATA else c.total / 3];
    }
  }

  // A block that is decoded at all is decoded word by word, and only its last word may be unpadded.
  lemma ByWords(c: Codec, data: Bytes, n: nat, isLast: bool, padded: bool, force: bool, fast: bool)
    requires Sized(c) && n == |data| / WORD - 1 && |data| >= WORD && (force || |data| % WORD == 0)
    ensures (n + 1) * WORD <= |data| && |data[n * WORD..(n + 1) * WORD]| == WORD
    ensures DecodeBlock(c, data, isLast, padded, force, fast) ==
            var before, m := DecodeChunks(c, data, n, force, fast), DecodeWord(c, data[n * WORD..(n + 1) * WORD], force, fast);
            if before.None? || m.None? then None
            else Some(before.value + if |data| != FULL || (isLast && padded) then Unpad(m.value) else m.value)
  {
    Whole(|data|);
  }

  // Word i of a block.
  function WordAt(data: Bytes, i: nat): (w: Bytes)
    requires (i + 1) * WORD <= |data|
    ensures |w| == WORD
  {
    data[i * WORD..(i + 1) * WORD]
  }

  lemma {:induction false} DecodedChunk(c: Codec, data: Bytes, n: nat, force: bool, i: nat)
    requires Sized(c) && n * WORD <= |data| && i < n && DecodeChunks(c, data, n, force, false).Some?
    ensures var out, w := DecodeChunks(c, data, n, force, false).value, WordAt(data, i);
            && |out| == n * DATA && (Repaired(c, w).None? ==> force)
            && out[i * DATA..(i + 1) * DATA] == if Repaired(c, w).Some? then Repaired(c, w).value else w[..DATA]
  {
    var before := DecodeChunks(c, data, n - 1, force, false).value;
    if n == 1 {
      assert before == [];
    } else {
      DecodedChunk(c, data, n - 1, force, if i < n - 1 then i else 0);
    }
  }

  lemma {:induction false} ChunksRefused(c: Codec, data: Bytes, n: nat)
    requires Sized(c) && n * WORD <= |data| && DecodeChunks(c, data, n, false, false).None?
    ensures exists i :: 0 <= i < n && Repaired(c, WordAt(data, i)).None?
  {
    if DecodeChunks(c, data, n - 1, false, false).None? {
      ChunksRefused(c, data, n - 1);
    } else {
      assert Repaired(c, WordAt(data, n - 1)).None?;
    }
  }

  // A block that is not read fast: each word before the last is its repaired message, or, past repair, the
  // message as it is stored, and that only when forced.
  lemma DecodedWords(c: Codec, data: Bytes, isLast: bool, padded: bool, force: bool, i: nat)
    requires Sized(c) && DecodeBlock(c, data, isLast, padded, force, false).Some? && (i + 2) * WORD <= |data|
    ensures var out, w := DecodeBlock(c, data, isLast, padded, force, false).value, WordAt(data, i);
            && (i + 1) * DATA <= |out| && (Repaired(c, w).None? ==> force)
            && out[i * DATA..(i + 1) * DATA] == if Repaired(c, w).Some? then Repaired(c, w).value else w[..DATA]
  {
    var n := |data| / WORD - 1;
    ByWords(c, data, n, isLast, padded, force, false);
    hide DecodeBlock, Unpad, DecodeWord, DecodeChunks;
    DecodedChunk(c, data, n, force, i);
  }

  // Without force a block is refused exactly when it is not made of words, or one of them is past repair.
  lemma RefusedBlocks(c: Codec, data: Bytes, isLast: bool, padded: bool)
    requires Sized(c)
    ensures DecodeBlock(c, data, isLast, padded, false, false).None? <==>
              |data| < WORD || |data| % WORD != 0 || exists i: nat :: (i + 1) * WORD <= |data| && Repaired(c, WordAt(data, i)).None?
  {
    if |data| >= WORD && |data| % WORD == 0 {
      var n := |data| / WORD - 1;
      ByWords(c, data, n, isLast, padded, false, false);
      if DecodeBlock(c, data, isLast, padded, false, false).None? {
        if DecodeChunks(c, data, n, false, false).None? {
          ChunksRefused(c, data, n);
        } else {
          assert Repaired(c, WordAt(data, n)).None?;
        }
      } else {
        forall i: nat | (i + 1) * WORD <= |data|
          ensures Repaired(c, WordAt(data, i)).Some?
        {
          if i < n {
            DecodedChunk(c, data, n, false, i);
          } else {
            assert i == n;
          }
        }
      }
    }
  }

  // A forced block is always something: a short one as it stands.
  lemma ForcedBlocks(c: Codec, data: Bytes, isLast: bool, padded: bool)
    requires Sized(c)
    ensures DecodeBlock(c, data, isLast, padded, true, false).Some?
    ensures |data| < WORD ==> DecodeBlock(c, data, isLast, padded, true, false) == Some(data)
  {
    if |data| >= WORD {
      Whole(|data|);
      ForcedChunks(c, data, |data| / WORD - 1);
    }
  }

  lemma {:induction false} ForcedChunks(c: Codec, data: Bytes, n: nat)
    requires Sized(c) && n * WORD <= |data|
    ensures DecodeChunks(c, data, n, true, false).Some?
  {
    if n > 0 {
      ForcedChunks(c, data, n - 1);
    }
  }

  // DecodeRSPayloadBlock.
  method DecodePayloadBlock(c: Codec, data: Bytes, isLast: bool, padded: bool, force: bool, fast: bool) returns (r: Option<Bytes>)
    requires Payload(c)
    ensures Sized(c) && r == DecodeBlock(c, data, isLast, padded, force, fast)
  {
    if !force && |data| % WORD != 0 {
      return None;
    }
    if |data| < WORD {
      return if force then Some(data) else None;
    }
    hide Ideal, DecodeWord, Unpad, DecodeChunks, DecodeBlock;
    Whole(|data|);
    var n := |data| / WORD - 1;
    ByWords(c, data, n, isLast, padded, force, fast);
    var result := DecodeAll(c, data, n, force, fast);
    if result.None? {
      return None;
    }
    var last := DecodeOne(c, data[n * WORD..(n + 1) * WORD], force, fast);
    if last.None? {
      return None;
    }
    if |data| != FULL || (isLast && padded) {
      r := Some(result.value + Unpad(last.value));
    } else {
      r := Some(result.value + last.value);
    }
  }

  // The loop over the words before the last.
  method DecodeAll(c: Codec, data: Bytes, n: nat, force: bool, fast: bool) returns (result: Option<Bytes>)
    requires Payload(c) && n * WORD <= |data|
    ensures Sized(c) && result == DecodeChunks(c, data, n, force, fast)
  {
    assert Sized(c);
    ChunksStart(c, data, force, fast);
    hide Ideal, DecodeWord, Payload, Sized, DecodeChunks;
    result := Some([]);
    for i := 0 to n
      invariant result.Some? && result == DecodeChunks(c, data, i, force, fast)
    {
      var decoded := DecodeOne(c, data[i * WORD..(i + 1) * WORD], force, fast);
      ChunksStep(c, data, i, force, fast);
      if decoded.None? {
        NoneStays(c, data, i + 1, n, force, fast);
        return None;
      }
      result := Some(result.value + decoded.value);
    }
  }

  lemma ChunksStart(c: Codec, data: Bytes, force: bool, fast: bool)
    requires Sized(c)
    ensures DecodeChunks(c, data, 0, force, fast) == Some([])
  {
  }

  lemma ChunksStep(c: Codec, data: Bytes, i: nat, force: bool, fast: bool)
    requires Sized(c) && (i + 1) * WORD <= |data|
    ensures |data[i * WORD..(i + 1) * WORD]| == WORD
    ensures var before, m := DecodeChunks(c, data, i, force, fast), DecodeWord(c, data[i * WORD..(i + 1) * WORD], force, fast);
            DecodeChunks(c, data, i + 1, force, fast) == if before.Some? && m.Some? then Some(before.value + m.value) else None
  {
  }

  method DecodeOne(c: Codec, word: Bytes, force: bool, fast: bool) returns (m: Option<Bytes>)
    requires Payload(c) && |word| == WORD
    ensures Sized(c) && m == DecodeWord(c, word, force, fast)
  {
    var decoded, ok := Decode(c, word, fast);
    m := if ok || force then Some(decoded) else None;
  }

  lemma {:induction false} NoneStays(c: Codec, data: Bytes, k: nat, n: nat, force: bool, fast: bool)
    requires Sized(c) && k <= n && n * WORD <= |data| && DecodeChunks(c, data, k, force, fast).None?
    ensures DecodeChunks(c, data, n, force, fast).None?
  {
    if k < n {
      NoneStays(c, data, k, n - 1, force, fast);
    }
  }
}
