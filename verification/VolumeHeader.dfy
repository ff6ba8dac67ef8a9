/** The legacy volume header (header/format.go, writer.go, reader.go, auth.go): eleven parts in a fixed
    order, each Reed-Solomon coded, with the authentication values patched in after encryption. */
module VolumeHeader {
  import opened Common
  import opened RsPayload

  const MAX_COMMENT: nat := 99999
  const BASE: nat := 789
  const PARTS: nat := 11

  // ----- decimal text and the version -----

  // "%05d" for width 5: the last w decimal digits of n, as ASCII.
  function Decimal(n: nat, w: nat): (d: Bytes)
    ensures |d| == w && Digits(d)
  {
    if w == 0 then [] else Decimal(n / 10, w - 1) + [48 + n % 10]
  }

  predicate Digits(d: Bytes)
  {
    forall i :: 0 <= i < |d| ==> 48 <= d[i] <= 57
  }

  // Atoi on digits.
  function Number(d: Bytes): nat
    requires Digits(d)
  {
    if d == [] then 0 else 10 * Number(d[..|d| - 1]) + (d[|d| - 1] - 48)
  }

  function Power(w: nat): nat
  {
    if w == 0 then 1 else 10 * Power(w - 1)
  }

  lemma {:induction false} NumberDecimal(n: nat, w: nat)
    requires n < Power(w)
    ensures Number(Decimal(n, w)) == n
  {
    if w > 0 {
      NumberDecimal(n / 10, w - 1);
      assert Decimal(n, w)[..w - 1] == Decimal(n / 10, w - 1);
    }
  }

  // Any five digits are at most the largest comment length, so the reader's second bound never acts.
  lemma {:induction false} NumberBound(d: Bytes)
    requires Digits(d)
    ensures Number(d) < Power(|d|)
  {
    if d != [] {
      NumberBound(d[..|d| - 1]);
    }
  }

  lemma FiveDigits()
    ensures Power(5) == MAX_COMMENT + 1
  {
    assert Power(3) == 1000;
  }

  // "v", a digit, ".", two digits.
  predicate MatchVersion(b: Bytes)
  {
    |b| == 5 && b[0] == 118 && 48 <= b[1] <= 57 && b[2] == 46 && 48 <= b[3] <= 57 && 48 <= b[4] <= 57
  }

  predicate IsSupportedVersion(b: Bytes)
  {
    MatchVersion(b) && (b[1] == 49 || b[1] == 50)
  }

  // "v2.19"
  const CURRENT_VERSION: Bytes := [118, 50, 46, 49, 57]

  // Exactly v1 and v2 of any minor number are supported, among them the version that is written.
  lemma SupportedVersions(major: nat, minor: nat)
    requires major < 10 && minor < 100
    ensures IsSupportedVersion([118, 48 + major, 46, 48 + minor / 10, 48 + minor % 10]) <==> major in {1, 2}
    ensures IsSupportedVersion(CURRENT_VERSION)
  {
  }

  // Nothing else is.
  lemma SupportedForm(b: Bytes) returns (major: nat, minor: nat)
    requires IsSupportedVersion(b)
    ensures major in {1, 2} && minor < 100 && b == [118, 48 + major, 46, 48 + minor / 10, 48 + minor % 10]
  {
    major, minor := b[1] - 48, 10 * (b[3] - 48) + (b[4] - 48);
    assert minor / 10 == b[3] - 48 && minor % 10 == b[4] - 48;
  }

  // ----- the header -----

  datatype Flags = Flags(paranoid: bool, useKeyfiles: bool, keyfileOrdered: bool, reedSolomon: bool, padded: bool)

  function Bit(b: bool): Byte { if b then 1 else 0 }

  function ToBytes(f: Flags): (b: Bytes)
    ensures |b| == 5 && FlagsFromBytes(b) == f
  {
    [Bit(f.paranoid), Bit(f.useKeyfiles), Bit(f.keyfileOrdered), Bit(f.reedSolomon), Bit(f.padded)]
  }

  // Each flag has its own byte.
  lemma FlagBytes(f: Flags, g: Flags)
    ensures ToBytes(f)[0] == ToBytes(g)[0] <==> f.paranoid == g.paranoid
    ensures ToBytes(f)[1] == ToBytes(g)[1] <==> f.useKeyfiles == g.useKeyfiles
    ensures ToBytes(f)[2] == ToBytes(g)[2] <==> f.keyfileOrdered == g.keyfileOrdered
    ensures ToBytes(f)[3] == ToBytes(g)[3] <==> f.reedSolomon == g.reedSolomon
    ensures ToBytes(f)[4] == ToBytes(g)[4] <==> f.padded == g.padded
    ensures ToBytes(Flags(true, false, false, false, false)) == [1, 0, 0, 0, 0]
  {
  }

  function FlagsFromBytes(b: Bytes): Flags
  {
    if |b| < 5 then Flags(false, false, false, false, false)
    else Flags(b[0] == 1, b[1] == 1, b[2] == 1, b[3] == 1, b[4] == 1)
  }

  datatype Header = Header(version: Bytes, comments: Bytes, flags: Flags,
                           salt: Bytes, hkdfSalt: Bytes, serpentIV: Bytes, nonce: Bytes,
                           keyHash: Bytes, keyfileHash: Bytes, authTag: Bytes)

  // What WriteHeader needs of the fields it encodes.
  predicate Writable(h: Header)
  {
    |h.comments| <= MAX_COMMENT && |h.version| == 5 && Values(h)
  }

  predicate Values(h: Header)
  {
    |h.salt| == 16 && |h.hkdfSalt| == 32 && |h.serpentIV| == 16 && |h.nonce| == 24
  }

  predicate AuthValues(keyHash: Bytes, keyfileHash: Bytes, authTag: Bytes)
  {
    |keyHash| == 64 && |keyfileHash| == 32 && |authTag| == 64
  }

  predicate WellFormed(h: Header)
  {
    Writable(h) && AuthValues(h.keyHash, h.keyfileHash, h.authTag) && IsSupportedVersion(h.version)
  }

  // ----- the codecs -----

  datatype Codecs = Codecs(rs1: Codec, rs5: Codec, rs16: Codec, rs24: Codec, rs32: Codec, rs64: Codec)

  predicate Rate(c: Codec, k: nat)
  {
    c.required == k && c.total == 3 * k
  }

  ghost predicate Ready(rs: Codecs)
  {
    && Rate(rs.rs1, 1) && Rate(rs.rs5, 5) && Rate(rs.rs16, 16) && Rate(rs.rs24, 24) && Rate(rs.rs32, 32) && Rate(rs.rs64, 64)
    && Ideal(rs.rs1) && Ideal(rs.rs5) && Ideal(rs.rs16) && Ideal(rs.rs24) && Ideal(rs.rs32) && Ideal(rs.rs64)
  }

  // ----- where the parts lie -----

  // The encoded width of part i in a header with n comment bytes.
  function Width(i: nat, n: nat): nat
  {
    match i
    case 0 => 15 case 1 => 15 case 2 => 3 * n case 3 => 15 case 4 => 48 case 5 => 96
    case 6 => 48 case 7 => 72 case 8 => 192 case 9 => 96 case 10 => 192 case _ => 0
  }

  function Start(i: nat, n: nat): nat
  {
    if i == 0 then 0 else Start(i - 1, n) + Width(i - 1, n)
  }

  function HeaderSize(n: nat): nat { BASE + 3 * n }

  function AuthValuesOffset(n: nat): nat { 15 + 15 + 3 * n + 15 + 48 + 96 + 48 + 72 }

  lemma Layout(n: nat)
    ensures Start(1, n) == 15 && Start(2, n) == 30 && Start(3, n) == 30 + 3 * n && Start(4, n) == 45 + 3 * n
    ensures Start(5, n) == 93 + 3 * n && Start(6, n) == 189 + 3 * n && Start(7, n) == 237 + 3 * n
    ensures Start(8, n) == AuthValuesOffset(n) && Start(9, n) == AuthValuesOffset(n) + 192
    ensures Start(10, n) == AuthValuesOffset(n) + 288 && Start(PARTS, n) == HeaderSize(n)
  {
    assert Start(1, n) == 15;
    assert Start(2, n) == 30;
    assert Start(3, n) == 30 + 3 * n;
    assert Start(4, n) == 45 + 3 * n;
    assert Start(5, n) == 93 + 3 * n;
    assert Start(6, n) == 189 + 3 * n;
    assert Start(7, n) == 237 + 3 * n;
    assert Start(8, n) == AuthValuesOffset(n);
    assert Start(9, n) == AuthValuesOffset(n) + 192;
    assert Start(10, n) == AuthValuesOffset(n) + 288;
  }

  // ----- joining parts -----

  function Join(parts: seq<Bytes>): Bytes
  {
    if parts == [] then [] else Join(parts[..|parts| - 1]) + parts[|parts| - 1]
  }

  function Before(parts: seq<Bytes>, i: nat): nat
    requires i <= |parts|
  {
    |Join(parts[..i])|
  }

  lemma JoinNext(parts: seq<Bytes>, i: nat)
    requires i < |parts|
    ensures Join(parts[..i + 1]) == Join(parts[..i]) + parts[i]
    ensures Before(parts, i + 1) == Before(parts, i) + |parts[i]|
  {
    assert parts[..i + 1][..i] == parts[..i];
  }

  lemma {:induction false} JoinStarts(parts: seq<Bytes>, i: nat)
    requires i <= |parts|
    ensures Join(parts[..i]) <= Join(parts)
    decreases |parts| - i
  {
    if i < |parts| {
      JoinNext(parts, i);
      JoinStarts(parts, i + 1);
    } else {
      assert parts[..i] == parts;
    }
  }

  // Part i is what lies at its own place.
  lemma JoinSlice(parts: seq<Bytes>, i: nat)
    requires i < |parts|
    ensures Before(parts, i) + |parts[i]| <= |Join(parts)|
    ensures Join(parts)[Before(parts, i)..Before(parts, i) + |parts[i]|] == parts[i]
  {
    JoinNext(parts, i);
    JoinStarts(parts, i + 1);
    var here := Join(parts[..i + 1]);
    assert here[Before(parts, i)..] == parts[i];
    assert Join(parts)[..|here|] == here;
  }

  // Parts of the same lengths are told apart by what they join to.
  lemma {:induction false} JoinInjective(a: seq<Bytes>, b: seq<Bytes>)
    requires |a| == |b| && (forall i :: 0 <= i < |a| ==> |a[i]| == |b[i]|)
    requires Join(a) == Join(b)
    ensures a == b
  {
    if a != [] {
      var n := |a| - 1;
      assert Join(a)[|Join(a)| - |a[n]|..] == a[n];
      assert Join(b)[|Join(b)| - |b[n]|..] == b[n];
      assert Join(a)[..|Join(a)| - |a[n]|] == Join(a[..n]);
      assert Join(b)[..|Join(b)| - |b[n]|] == Join(b[..n]);
      JoinInjective(a[..n], b[..n]);
      assert a == a[..n] + [a[n]] && b == b[..n] + [b[n]];
    }
  }

  // WriteAt within the bytes there are.
  function Patch(d: Bytes, at: nat, p: Bytes): (r: Bytes)
    requires at + |p| <= |d|
    ensures |r| == |d|
  {
    d[..at] + p + d[at + |p|..]
  }

  // Overwriting a part where it lies replaces it and nothing else.
  lemma {:induction false} PatchPart(parts: seq<Bytes>, i: nat, p: Bytes)
    requires i < |parts| && |p| == |parts[i]|
    ensures Before(parts, i) + |p| <= |Join(parts)|
    ensures Join(parts[i := p]) == Patch(Join(parts), Before(parts, i), p)
  {
    JoinSlice(parts, i);
    var n := |parts| - 1;
    if i == n {
      assert parts[i := p][..n] == parts[..n];
    } else {
      PatchPart(parts[..n], i, p);
      assert parts[..n][..i] == parts[..i];
      assert parts[i := p][..n] == parts[..n][i := p];
    }
  }

  // ----- the image of a header -----

  // Encode; a message of the wrong size is refused and puts nothing down.
  function Encoded(c: Codec, data: Bytes): (w: Bytes)
    requires c.required <= c.total
  {
    if |data| == c.required then EncodeWord(c, data) else []
  }

  function Zeros(n: nat): (z: Bytes)
    ensures |z| == n
  {
    seq(n, _ => 0)
  }

  function EncodeComments(c: Codec, comments: Bytes): (w: Bytes)
    requires Rate(c, 1)
    ensures |w| == 3 * |comments|
  {
    if comments == [] then []
    else EncodeComments(c, comments[..|comments| - 1]) + EncodeWord(c, [comments[|comments| - 1]])
  }

  // The codec of part i and the message it carries; the comments, part 2, are coded byte by byte.
  function CodecAt(rs: Codecs, i: nat): Codec
  {
    match i
    case 2 => rs.rs1 case 4 => rs.rs16 case 5 => rs.rs32 case 6 => rs.rs16 case 7 => rs.rs24
    case 8 => rs.rs64 case 9 => rs.rs32 case 10 => rs.rs64 case _ => rs.rs5
  }

  function Field(h: Header, i: nat): Bytes
  {
    match i
    case 0 => h.version case 1 => Decimal(|h.comments|, 5) case 2 => h.comments case 3 => ToBytes(h.flags)
    case 4 => h.salt case 5 => h.hkdfSalt case 6 => h.serpentIV case 7 => h.nonce
    case 8 => h.keyHash case 9 => h.keyfileHash case _ => h.authTag
  }

  ghost function PartOf(rs: Codecs, h: Header, i: nat): Bytes
    requires Ready(rs)
  {
    if i == 2 then EncodeComments(rs.rs1, h.comments) else Encoded(CodecAt(rs, i), Field(h, i))
  }

  ghost function Parts(rs: Codecs, h: Header): (p: seq<Bytes>)
    requires Ready(rs)
    ensures |p| == PARTS
  {
    seq(PARTS, (i: nat) => PartOf(rs, h, i))
  }

  // With placeholders for the authentication values.
  ghost function Draft(rs: Codecs, h: Header): (p: seq<Bytes>)
    requires Ready(rs)
    ensures |p| == PARTS
  {
    Parts(rs, h)[8 := Zeros(192)][9 := Zeros(96)][10 := Zeros(192)]
  }

  ghost predicate Fits(parts: seq<Bytes>, n: nat)
  {
    |parts| == PARTS && (forall i :: 0 <= i < PARTS ==> |parts[i]| == Width(i, n))
  }

  lemma Widths(rs: Codecs, h: Header)
    requires Ready(rs) && Writable(h)
    ensures Fits(Draft(rs, h), |h.comments|)
    ensures AuthValues(h.keyHash, h.keyfileHash, h.authTag) ==> Fits(Parts(rs, h), |h.comments|)
  {
    hide Ideal, EncodeWord;
  }

  lemma {:induction false} BeforeStart(parts: seq<Bytes>, i: nat, n: nat)
    requires Fits(parts, n) && i <= PARTS
    ensures Before(parts, i) == Start(i, n)
  {
    if i > 0 {
      JoinNext(parts, i - 1);
      BeforeStart(parts, i - 1, n);
    }
  }

  // Part i is found from its start.
  lemma PartAt(parts: seq<Bytes>, n: nat, i: nat)
    requires Fits(parts, n) && i < PARTS
    ensures Start(i, n) + Width(i, n) <= |Join(parts)|
    ensures Join(parts)[Start(i, n)..Start(i, n) + Width(i, n)] == parts[i]
  {
    hide Width, Join, Start;
    BeforeStart(parts, i, n);
    JoinSlice(parts, i);
    var at, w := Before(parts, i), |parts[i]|;
    assert at == Start(i, n) && w == Width(i, n);
    assert Join(parts)[at..at + w] == parts[i];
  }

  // The documented sizes: a whole header takes HeaderSize bytes, its authentication values begin at
  // AuthValuesOffset.
  lemma ImageLayout(parts: seq<Bytes>, n: nat)
    requires Fits(parts, n)
    ensures |Join(parts)| == HeaderSize(n)
    ensures Before(parts, 8) == AuthValuesOffset(n)
    ensures Before(parts, 9) == AuthValuesOffset(n) + 192
    ensures Before(parts, 10) == AuthValuesOffset(n) + 288
  {
    Layout(n);
    BeforeStart(parts, 8, n);
    BeforeStart(parts, 9, n);
    BeforeStart(parts, 10, n);
    BeforeStart(parts, PARTS, n);
    assert parts[..PARTS] == parts;
  }

  // The three placeholders lie next to each other, up to the end of the header.
  lemma PlaceholdersLie(parts: seq<Bytes>, n: nat)
    requires Fits(parts, n)
    ensures var d, at := Join(parts), AuthValuesOffset(n);
            && at + 480 == HeaderSize(n) == |d|
            && d[at..at + 192] == parts[8] && d[at + 192..at + 288] == parts[9] && d[at + 288..at + 480] == parts[10]
  {
    ImageLayout(parts, n);
    BeforeStart(parts, 8, n);
    BeforeStart(parts, 9, n);
    BeforeStart(parts, 10, n);
    AuthWidths(n);
    Layout(n);
    hide Join, Before, Start, Width, Fits;
    PartAt(parts, n, 8);
    PartAt(parts, n, 9);
    PartAt(parts, n, 10);
  }

  // Until the authentication values are written, zeros hold their place.
  lemma DraftIsBlank(rs: Codecs, h: Header, i: nat)
    requires Ready(rs) && Writable(h) && AuthValuesOffset(|h.comments|) <= i < HeaderSize(|h.comments|)
    ensures i < |Join(Draft(rs, h))| && Join(Draft(rs, h))[i] == 0
  {
    var n, p := |h.comments|, Draft(rs, h);
    Placeholders(rs, h);
    Widths(rs, h);
    hide Join, Fits, HeaderSize, AuthValuesOffset, Draft, Zeros;
    PlaceholdersLie(p, n);
    var d, at := Join(p), AuthValuesOffset(n);
    if i < at + 192 {
      assert d[i] == d[at..at + 192][i - at];
    } else if i < at + 288 {
      assert d[i] == d[at + 192..at + 288][i - at - 192];
    } else {
      assert d[i] == d[at + 288..at + 480][i - at - 288];
    }
  }

  lemma Placeholders(rs: Codecs, h: Header)
    requires Ready(rs)
    ensures var p := Draft(rs, h); |p[8]| == |p[10]| == 192 && |p[9]| == 96 && (forall k :: 0 <= k < 192 ==> p[8][k] == p[10][k] == 0) && forall k :: 0 <= k < 96 ==> p[9][k] == 0
  {
    hide Parts, PartOf;
  }

  // ----- writing -----

  /** Where the header goes: written in order, then overwritten at an offset. A faulty one may stop at
      any write. */
  class Volume {
    var data: Bytes
    const faulty: bool

    constructor (faulty: bool)
      ensures data == [] && this.faulty == faulty
    {
      data := [];
      this.faulty := faulty;
    }

    method Write(p: Bytes) returns (n: nat, ok: bool)
      modifies this
      ensures n <= |p| && data == old(data) + p[..n]
      ensures ok ==> n == |p|
      ensures !faulty ==> ok
    {
      var short: int := *;
      n, ok := |p|, true;
      if faulty && 0 <= short <= |p| {
        n, ok := short, false;
      }
      data := data + p[..n];
    }

    method WriteAt(p: Bytes, at: nat) returns (ok: bool)
      requires at + |p| <= |data|
      modifies this
      ensures |data| == |old(data)| && data[..at] == old(data[..at]) && data[at + |p|..] == old(data[at + |p|..])
      ensures ok ==> data == Patch(old(data), at, p)
      ensures !faulty ==> ok
    {
      var short: int := *;
      ok := !faulty || short < 0 || short > |p|;
      data := Patch(data, at, if ok then p else p[..short]);
    }
  }

  // encoding.Encode: a fresh slice, or an error for a message of the wrong size.
  method Encode(c: Codec, data: Bytes) returns (enc: Bytes, ok: bool)
    requires c.required <= c.total
    ensures ok <==> |data| == c.required
    ensures enc == Encoded(c, data)
  {
    var res := new Byte[c.total](_ => 0);
    ok := EncodeInto(c, res, 0, c.total, data);
    enc := if ok then res[0..c.total] else [];
  }

  // The first i parts are down; some beginning of them all is down.
  ghost predicate Reached(data: Bytes, start: Bytes, parts: seq<Bytes>, i: nat)
  {
    i <= |parts| && data == start + Join(parts[..i])
  }

  ghost predicate Partial(data: Bytes, start: Bytes, parts: seq<Bytes>)
  {
    start <= data && data[|start|..] <= Join(parts)
  }

  lemma ReachedIsPartial(data: Bytes, start: Bytes, parts: seq<Bytes>, i: nat)
    requires Reached(data, start, parts, i)
    ensures Partial(data, start, parts)
  {
    JoinStarts(parts, i);
    assert data[|start|..] == Join(parts[..i]);
  }

  lemma PutSome(data: Bytes, start: Bytes, parts: seq<Bytes>, i: nat, some: Bytes)
    requires Reached(data, start, parts, i) && i < |parts| && some <= parts[i]
    ensures Partial(data + some, start, parts)
    ensures some == parts[i] ==> Reached(data + some, start, parts, i + 1)
  {
    JoinNext(parts, i);
    JoinStarts(parts, i + 1);
    ghost var head := Join(parts[..i]);
    assert data + some == start + (head + some);
    assert head + some <= Join(parts[..i + 1]);
  }

  // One write of a whole part, after the parts before it.
  method Put(v: Volume, enc: Bytes, ghost start: Bytes, ghost parts: seq<Bytes>, ghost i: nat) returns (n: nat, ok: bool)
    requires i < |parts| && enc == parts[i] && Reached(v.data, start, parts, i)
    modifies v
    ensures ok ==> Reached(v.data, start, parts, i + 1)
    ensures Partial(v.data, start, parts)
    ensures |v.data| == |old(v.data)| + n
    ensures !v.faulty ==> ok
  {
    n, ok := v.Write(enc);
    PutSome(old(v.data), start, parts, i, enc[..n]);
  }

  // One field: encoded, then written.
  method PutField(v: Volume, c: Codec, data: Bytes, ghost start: Bytes, ghost parts: seq<Bytes>, ghost i: nat)
    returns (n: nat, ok: bool)
    requires c.required <= c.total
    requires i < |parts| && parts[i] == Encoded(c, data) && Reached(v.data, start, parts, i)
    modifies v
    ensures ok ==> |data| == c.required && Reached(v.data, start, parts, i + 1)
    ensures Partial(v.data, start, parts)
    ensures |v.data| == |old(v.data)| + n
    ensures |data| == c.required && !v.faulty ==> ok
  {
    var enc, encoded := Encode(c, data);
    if !encoded {
      ReachedIsPartial(v.data, start, parts, i);
      return 0, false;
    }
    n, ok := Put(v, enc, start, parts, i);
  }

  // The comment, a byte at a time.
  method PutComments(v: Volume, c: Codec, comments: Bytes, ghost start: Bytes, ghost parts: seq<Bytes>, ghost i: nat)
    returns (n: nat, ok: bool)
    requires Rate(c, 1)
    requires i < |parts| && parts[i] == EncodeComments(c, comments) && Reached(v.data, start, parts, i)
    modifies v
    ensures ok ==> Reached(v.data, start, parts, i + 1)
    ensures Partial(v.data, start, parts)
    ensures |v.data| == |old(v.data)| + n
    ensures !v.faulty ==> ok
  {
    n, ok := SendComments(v, c, comments);
    PutSome(old(v.data), start, parts, i, parts[i][..n]);
  }

  method SendComments(v: Volume, c: Codec, comments: Bytes) returns (n: nat, ok: bool)
    requires Rate(c, 1)
    modifies v
    ensures n <= 3 * |comments| && v.data == old(v.data) + EncodeComments(c, comments)[..n]
    ensures ok ==> n == 3 * |comments|
    ensures !v.faulty ==> ok
  {
    n, ok := 0, true;
    ghost var sent: Bytes := [];
    assert v.data == old(v.data) + sent;
    for k := 0 to |comments|
      invariant ok && v.data == old(v.data) + sent && n == |sent|
      invariant sent == EncodeComments(c, comments[..k])
    {
      CommentsNext(c, comments, k);
      hide EncodeComments;
      var enc, encoded := Encode(c, [comments[k]]);
      var more;
      more, ok := v.Write(enc);
      n, sent := n + more, sent + enc[..more];
      assert v.data == old(v.data) + sent;
      if !ok {
        return;
      }
    }
    assert comments[..|comments|] == comments;
  }

  lemma CommentsNext(c: Codec, comments: Bytes, k: nat)
    requires Rate(c, 1) && k < |comments|
    ensures EncodeComments(c, comments[..k]) + EncodeWord(c, [comments[k]]) == EncodeComments(c, comments[..k + 1])
    ensures EncodeComments(c, comments[..k + 1]) <= EncodeComments(c, comments)
  {
    assert comments[..k + 1][..k] == comments[..k];
    CommentsStart(c, comments, k + 1);
  }

  lemma {:induction false} CommentsStart(c: Codec, comments: Bytes, k: nat)
    requires Rate(c, 1) && k <= |comments|
    ensures EncodeComments(c, comments[..k]) <= EncodeComments(c, comments)
    decreases |comments|
  {
    if k < |comments| {
      var n := |comments| - 1;
      CommentsStart(c, comments[..n], k);
      assert comments[..n][..k] == comments[..k];
    } else {
      assert comments[..k] == comments;
    }
  }

  // The fields every volume has: version, comment, flags.
  method WriteText(v: Volume, rs: Codecs, h: Header, ghost start: Bytes, ghost parts: seq<Bytes>) returns (total: nat, ok: bool)
    requires Ready(rs) && parts == Draft(rs, h) && Reached(v.data, start, parts, 0)
    modifies v
    ensures Partial(v.data, start, parts) && |v.data| == |old(v.data)| + total
    ensures ok ==> |h.version| == 5 && Reached(v.data, start, parts, 4)
    ensures |h.version| == 5 && !v.faulty ==> ok
  {
    DraftParts(rs, h);
    hide Ready, Parts, Draft, Join, Ideal, Encoded, EncodeWord, EncodeComments, Decimal, ToBytes, Reached, Partial, Zeros;
    total, ok := PutField(v, rs.rs5, h.version, start, parts, 0);
    if !ok { return; }
    var n;
    n, ok := PutField(v, rs.rs5, Decimal(|h.comments|, 5), start, parts, 1);
    total := total + n;
    if !ok { return; }
    n, ok := PutComments(v, rs.rs1, h.comments, start, parts, 2);
    total := total + n;
    if !ok { return; }
    n, ok := PutField(v, rs.rs5, ToBytes(h.flags), start, parts, 3);
    total := total + n;
  }

  lemma Sizes(rs: Codecs)
    requires Ready(rs)
    ensures rs.rs16.required == 16 && rs.rs24.required == 24 && rs.rs32.required == 32
    ensures rs.rs16.total == 48 && rs.rs24.total == 72 && rs.rs32.total == 96
  {
  }

  // The cryptographic values.
  method WriteValues(v: Volume, rs: Codecs, h: Header, ghost start: Bytes, ghost parts: seq<Bytes>) returns (total: nat, ok: bool)
    requires Ready(rs) && parts == Draft(rs, h) && Reached(v.data, start, parts, 4)
    modifies v
    ensures Partial(v.data, start, parts) && |v.data| == |old(v.data)| + total
    ensures ok ==> Values(h) && Reached(v.data, start, parts, 8)
    ensures Values(h) && !v.faulty ==> ok
  {
    DraftParts(rs, h);
    Sizes(rs);
    hide Ready, Parts, Draft, Join, Ideal, Encoded, EncodeWord, EncodeComments, Decimal, ToBytes, Reached, Partial, Zeros, Rate;
    total, ok := PutField(v, rs.rs16, h.salt, start, parts, 4);
    if !ok { return; }
    var n;
    n, ok := PutField(v, rs.rs32, h.hkdfSalt, start, parts, 5);
    total := total + n;
    if !ok { return; }
    n, ok := PutField(v, rs.rs16, h.serpentIV, start, parts, 6);
    total := total + n;
    if !ok { return; }
    n, ok := PutField(v, rs.rs24, h.nonce, start, parts, 7);
    total := total + n;
  }

  // Room for the authentication values.
  method WritePlaceholders(v: Volume, rs: Codecs, h: Header, ghost start: Bytes, ghost parts: seq<Bytes>) returns (total: nat, ok: bool)
    requires Ready(rs) && parts == Draft(rs, h) && Reached(v.data, start, parts, 8)
    modifies v
    ensures Partial(v.data, start, parts) && |v.data| == |old(v.data)| + total
    ensures ok ==> v.data == start + Join(parts)
    ensures !v.faulty ==> ok
  {
    DraftParts(rs, h);
    hide Ready, Parts, Draft, Join, Ideal, Encoded, EncodeWord, EncodeComments, Decimal, ToBytes, Reached, Partial, Zeros;
    total, ok := Put(v, Zeros(192), start, parts, 8);
    if !ok { return; }
    var n;
    n, ok := Put(v, Zeros(96), start, parts, 9);
    total := total + n;
    if !ok { return; }
    n, ok := Put(v, Zeros(192), start, parts, 10);
    total := total + n;
    if ok {
      AllReached(v.data, start, parts);
    }
  }

  // WriteHeader: whatever stops it, what it wrote is the beginning of the one image the header has.
  method WriteHeader(v: Volume, rs: Codecs, h: Header) returns (total: nat, ok: bool)
    requires Ready(rs)
    modifies v
    ensures |h.comments| > MAX_COMMENT ==> !ok && v.data == old(v.data)
    ensures Partial(v.data, old(v.data), Draft(rs, h)) && |v.data| == |old(v.data)| + total
    ensures ok ==> Writable(h) && v.data == old(v.data) + Join(Draft(rs, h)) && total == HeaderSize(|h.comments|)
    ensures Writable(h) && !v.faulty ==> ok
  {
    ghost var start, parts := v.data, Draft(rs, h);
    assert Reached(v.data, start, parts, 0);
    if |h.comments| > MAX_COMMENT {
      ReachedIsPartial(v.data, start, parts, 0);
      return 0, false;
    }
    hide Ready, Draft, Join, Reached, Partial;
    total, ok := WriteText(v, rs, h, start, parts);
    if !ok { return; }
    var n;
    n, ok := WriteValues(v, rs, h, start, parts);
    total := total + n;
    if !ok { return; }
    Widths(rs, h);
    ImageLayout(parts, |h.comments|);
    n, ok := WritePlaceholders(v, rs, h, start, parts);
    total := total + n;
  }

  lemma AllReached(data: Bytes, start: Bytes, parts: seq<Bytes>)
    requires Reached(data, start, parts, |parts|)
    ensures data == start + Join(parts)
  {
    assert parts[..|parts|] == parts;
  }

  lemma DraftParts(rs: Codecs, h: Header)
    requires Ready(rs)
    ensures var p := Draft(rs, h);
            && Join(p[..0]) == []
            && p[0] == Encoded(rs.rs5, h.version) && p[1] == Encoded(rs.rs5, Decimal(|h.comments|, 5))
            && p[2] == EncodeComments(rs.rs1, h.comments) && p[3] == Encoded(rs.rs5, ToBytes(h.flags))
            && p[4] == Encoded(rs.rs16, h.salt) && p[5] == Encoded(rs.rs32, h.hkdfSalt)
            && p[6] == Encoded(rs.rs16, h.serpentIV) && p[7] == Encoded(rs.rs24, h.nonce)
            && p[8] == Zeros(192) && p[9] == Zeros(96) && p[10] == Zeros(192)
    ensures Rate(rs.rs1, 1) && Rate(rs.rs5, 5) && Rate(rs.rs16, 16) && Rate(rs.rs24, 24) && Rate(rs.rs32, 32)
  {
    hide Encoded, EncodeComments, Decimal, ToBytes, Ideal;
  }

  // WriteAuthValues: three words, each where the one before it ends. Nothing else is touched, and nothing
  // at all when the first value has the wrong size.
  method WriteAuthValues(v: Volume, offset: nat, keyHash: Bytes, keyfileHash: Bytes, authTag: Bytes, rs: Codecs) returns (ok: bool)
    requires Ready(rs) && offset + 480 <= |v.data|
    modifies v
    ensures |v.data| == |old(v.data)| && v.data[..offset] == old(v.data[..offset])
    ensures v.data[offset + 480..] == old(v.data[offset + 480..])
    ensures |keyHash| != 64 ==> !ok && v.data == old(v.data)
    ensures ok ==> AuthValues(keyHash, keyfileHash, authTag) &&
                   v.data == Patched(old(v.data), offset, Encoded(rs.rs64, keyHash), Encoded(rs.rs32, keyfileHash), Encoded(rs.rs64, authTag))
    ensures AuthValues(keyHash, keyfileHash, authTag) && !v.faulty ==> ok
  {
    hide Ideal, EncodeWord;
    var pos, enc := offset, [];
    enc, ok := Encode(rs.rs64, keyHash);
    if !ok { return; }
    ghost var was := v.data;
    ok := v.WriteAt(enc, pos);
    Outside(was, v.data, offset, offset + 480, pos, pos + 192);
    if !ok { return; }
    pos := pos + 192;
    enc, ok := Encode(rs.rs32, keyfileHash);
    if !ok { return; }
    was := v.data;
    ok := v.WriteAt(enc, pos);
    Outside(was, v.data, offset, offset + 480, pos, pos + 96);
    if !ok { return; }
    pos := pos + 96;
    enc, ok := Encode(rs.rs64, authTag);
    if !ok { return; }
    was := v.data;
    ok := v.WriteAt(enc, pos);
    Outside(was, v.data, offset, offset + 480, pos, pos + 192);
  }

  function Patched(d: Bytes, offset: nat, keyHash: Bytes, keyfileHash: Bytes, authTag: Bytes): Bytes
    requires |keyHash| == 192 && |keyfileHash| == 96 && |authTag| == 192 && offset + 480 <= |d|
  {
    Patch(Patch(Patch(d, offset, keyHash), offset + 192, keyfileHash), offset + 288, authTag)
  }

  lemma Outside(a: Bytes, b: Bytes, lo: nat, hi: nat, from: nat, to: nat)
    requires |a| == |b| && lo <= from <= to <= hi <= |a|
    requires a[..from] == b[..from] && a[to..] == b[to..]
    ensures a[..lo] == b[..lo] && a[hi..] == b[hi..]
  {
    assert a[..from][..lo] == a[..lo] && b[..from][..lo] == b[..lo];
    assert a[to..][hi - to..] == a[hi..] && b[to..][hi - to..] == b[hi..];
  }

  // Three parts replaced where they lie, whatever comes after the last part.
  lemma PatchThree(parts: seq<Bytes>, n: nat, k: Bytes, f: Bytes, t: Bytes, rest: Bytes)
    requires Fits(parts, n) && |k| == |t| == 192 && |f| == 96
    ensures AuthValuesOffset(n) + 480 <= |Join(parts) + rest|
    ensures Patched(Join(parts) + rest, AuthValuesOffset(n), k, f, t) == Join(parts[8 := k][9 := f][10 := t]) + rest
  {
    var p1 := parts[8 := k];
    var p2 := p1[9 := f];
    hide Width, Join;
    ImageLayout(parts, n);
    ImageLayout(p1, n);
    ImageLayout(p2, n);
    assert |parts[8]| == |parts[10]| == 192 && |parts[9]| == 96 by { AuthWidths(n); }
    PatchPart(parts, 8, k);
    PatchPart(p1, 9, f);
    PatchPart(p2, 10, t);
    PatchFront(Join(parts), rest, Before(parts, 8), k);
    PatchFront(Join(p1), rest, Before(p1, 9), f);
    PatchFront(Join(p2), rest, Before(p2, 10), t);
  }

  // Patching the draft at AuthValuesOffset, whatever was written after it, gives the whole image.
  lemma PatchedDraft(rs: Codecs, h: Header, rest: Bytes)
    requires Ready(rs) && Writable(h) && AuthValues(h.keyHash, h.keyfileHash, h.authTag)
    ensures AuthValuesOffset(|h.comments|) + 480 <= |Join(Draft(rs, h)) + rest|
    ensures Patched(Join(Draft(rs, h)) + rest, AuthValuesOffset(|h.comments|),
                    Encoded(rs.rs64, h.keyHash), Encoded(rs.rs32, h.keyfileHash), Encoded(rs.rs64, h.authTag))
            == Join(Parts(rs, h)) + rest
  {
    var p0 := Draft(rs, h);
    var k, f, t := Encoded(rs.rs64, h.keyHash), Encoded(rs.rs32, h.keyfileHash), Encoded(rs.rs64, h.authTag);
    hide Parts, Draft, Join, Patched, Encoded, Fits, AuthValuesOffset;
    FilledDraft(rs, h);
    Widths(rs, h);
    PatchThree(p0, |h.comments|, k, f, t, rest);
  }

  lemma FilledDraft(rs: Codecs, h: Header)
    requires Ready(rs) && Writable(h) && AuthValues(h.keyHash, h.keyfileHash, h.authTag)
    ensures var k, f, t := Encoded(rs.rs64, h.keyHash), Encoded(rs.rs32, h.keyfileHash), Encoded(rs.rs64, h.authTag);
            Draft(rs, h)[8 := k][9 := f][10 := t] == Parts(rs, h) && |k| == |t| == 192 && |f| == 96
  {
    hide EncodeWord, Ideal;
  }

  lemma AuthWidths(n: nat)
    ensures Width(8, n) == 192 && Width(9, n) == 96 && Width(10, n) == 192
  {
  }

  lemma PatchFront(d: Bytes, rest: Bytes, at: nat, p: Bytes)
    requires at + |p| <= |d|
    ensures Patch(d + rest, at, p) == Patch(d, at, p) + rest
  {
    assert (d + rest)[at + |p|..] == d[at + |p|..] + rest;
  }

  // ----- reading -----

  datatype Error = ReadFailed | InvalidVersion | UnsupportedVersion | InvalidCommentLength

  datatype Result<+T> = Success(value: T) | Failure(error: Error) {
    predicate IsFailure() { Failure? }

    function PropagateFailure<U>(): Result<U>
      requires Failure?
    {
      Failure(error)
    }

    function Extract(): T
      requires Success?
    {
      value
    }
  }

  // Decode: the repaired message, or the bytes as they stand when repair fails.
  function FieldOf(c: Codec, w: Bytes): (m: Bytes)
    requires |w| == c.total == 3 * c.required && c.total != WORD
    requires forall v :: c.correct(v).Some? ==> |c.correct(v).value| == c.total
    ensures |m| == c.required
  {
    var r := Repaired(c, w);
    if r.Some? then r.value else w[..c.required]
  }

  lemma Near(c: Codec, w: Bytes, m: Bytes)
    requires Ideal(c) && Rate(c, |m|) && |w| == c.total != WORD && Distance(w, EncodeWord(c, m)) <= |m|
    ensures FieldOf(c, w) == m && Repaired(c, w).Some?
  {
  }

  // What stands where part i belongs, given n comment bytes.
  function Slice(d: Bytes, i: nat, n: nat): (w: Bytes)
    requires Start(i, n) + Width(i, n) <= |d|
    ensures |w| == Width(i, n)
  {
    d[Start(i, n)..Start(i, n) + Width(i, n)]
  }

  ghost function Read(rs: Codecs, d: Bytes, i: nat, n: nat): (m: Bytes)
    requires Ready(rs) && i < PARTS && i != 2 && Start(i, n) + Width(i, n) <= |d|
    ensures 3 * |m| == Width(i, n)
  {
    FieldOf(CodecAt(rs, i), Slice(d, i, n))
  }

  // The three bytes of comment byte j.
  function Triple(d: Bytes, j: nat): (w: Bytes)
    requires 33 + 3 * j <= |d|
    ensures |w| == 3
  {
    d[30 + 3 * j..33 + 3 * j]
  }

  // The first n comment bytes.
  ghost function Comments(rs: Codecs, d: Bytes, n: nat): (r: Bytes)
    requires Ready(rs) && 30 + 3 * n <= |d|
    ensures |r| == n
  {
    if n == 0 then [] else Comments(rs, d, n - 1) + FieldOf(rs.rs1, Triple(d, n - 1))
  }

  lemma HeadStarts(n: nat)
    ensures Start(1, n) == 15 && Start(2, n) == 30
  {
    Layout(n);
  }

  // How a stream that does not fail reads: the first thing wrong with it.
  ghost function Verdict(rs: Codecs, d: Bytes): Result<nat>
    requires Ready(rs)
  {
    if |d| < 15 then Failure(ReadFailed) else
    var version := FieldOf(rs.rs5, d[..15]);
    if !MatchVersion(version) then Failure(InvalidVersion) else
    if !IsSupportedVersion(version) then Failure(UnsupportedVersion) else
    if |d| < 30 then Failure(ReadFailed) else
    var length := FieldOf(rs.rs5, d[15..30]);
    if !Digits(length) then Failure(InvalidCommentLength) else
    if |d| < HeaderSize(Number(length)) then Failure(ReadFailed) else Success(Number(length))
  }

  ghost function Opening(rs: Codecs, d: Bytes, n: nat): Header
    requires Ready(rs) && 30 + 3 * n <= |d|
  {
    Header(FieldOf(rs.rs5, d[..15]), Comments(rs, d, n), Flags(false, false, false, false, false), [], [], [], [], [], [], [])
  }

  ghost function WithValues(rs: Codecs, d: Bytes, n: nat, h: Header): Header
    requires Ready(rs) && Start(8, n) <= |d|
  {
    Layout(n);
    h.(flags := FlagsFromBytes(Read(rs, d, 3, n)), salt := Read(rs, d, 4, n), hkdfSalt := Read(rs, d, 5, n),
       serpentIV := Read(rs, d, 6, n), nonce := Read(rs, d, 7, n))
  }

  ghost function WithAuth(rs: Codecs, d: Bytes, n: nat, h: Header): Header
    requires Ready(rs) && Start(PARTS, n) <= |d|
  {
    Layout(n);
    h.(keyHash := Read(rs, d, 8, n), keyfileHash := Read(rs, d, 9, n), authTag := Read(rs, d, 10, n))
  }

  ghost function Parsed(rs: Codecs, d: Bytes, n: nat): Header
    requires Ready(rs) && HeaderSize(n) <= |d|
  {
    Layout(n);
    WithAuth(rs, d, n, WithValues(rs, d, n, Opening(rs, d, n)))
  }

  // A part that could not be repaired; a comment byte that could not.
  ghost predicate Broken(rs: Codecs, d: Bytes, i: nat, n: nat)
    requires Ready(rs)
  {
    i < PARTS && i != 2 && Start(i, n) + Width(i, n) <= |d| && Repaired(CodecAt(rs, i), Slice(d, i, n)).None?
  }

  ghost predicate BrokenComment(rs: Codecs, d: Bytes, j: nat)
    requires Ready(rs)
  {
    33 + 3 * j <= |d| && Repaired(rs.rs1, Triple(d, j)).None?
  }

  /** A header reader and the result it fills: data is what the stream holds, bytesRead how much of it
      was taken. A faulty stream may stop anywhere. */
  class Reader {
    const rs: Codecs
    const data: Bytes
    const faulty: bool
    var bytesRead: nat
    var commentDecodeError: bool
    var nonCommentDecodeError: bool
    var decodeError: bool

    ghost predicate Valid()
      reads this`bytesRead
    {
      Ready(rs) && bytesRead <= |data|
    }

    constructor (rs: Codecs, data: Bytes, faulty: bool)
      requires Ready(rs)
      ensures Valid() && this.rs == rs && this.data == data && this.faulty == faulty
      ensures bytesRead == 0 && !commentDecodeError && !nonCommentDecodeError && !decodeError
    {
      this.rs, this.data, this.faulty := rs, data, faulty;
      bytesRead := 0;
      commentDecodeError, nonCommentDecodeError, decodeError := false, false, false;
    }

    // io.ReadFull of n bytes.
    method ReadFull(n: nat) returns (r: Result<Bytes>)
      requires Valid()
      modifies this`bytesRead
      ensures Valid()
      ensures r.Success? ==> bytesRead == old(bytesRead) + n && r.value == data[old(bytesRead)..bytesRead]
      ensures r.Failure? ==> r.error == ReadFailed && bytesRead < old(bytesRead) + n
      ensures !faulty ==> (r.Success? <==> old(bytesRead) + n <= |data|)
    {
      var short: int := *;
      if faulty && 0 <= short < n && bytesRead + short <= |data| {
        bytesRead := bytesRead + short;
        return Failure(ReadFailed);
      }
      if bytesRead + n > |data| {
        bytesRead := |data|;
        return Failure(ReadFailed);
      }
      r := Success(data[bytesRead..bytesRead + n]);
      bytesRead := bytesRead + n;
    }

    // One coded field, and whether it was past repair.
    method ReadWord(c: Codec) returns (r: Result<Bytes>, ghost word: Bytes, broken: bool)
      requires Valid() && Ideal(c) && c.total == 3 * c.required && c.total != WORD
      modifies this`bytesRead
      ensures Valid()
      ensures r.Success? ==> bytesRead == old(bytesRead) + c.total && word == data[old(bytesRead)..bytesRead]
                             && r.value == FieldOf(c, word) && (broken <==> Repaired(c, word).None?)
      ensures r.Failure? ==> r.error == ReadFailed && bytesRead < old(bytesRead) + c.total
      ensures !faulty ==> (r.Success? <==> old(bytesRead) + c.total <= |data|)
    {
      word, broken := [], false;
      var enc := ReadFull(c.total);
      if enc.Failure? {
        return Failure(enc.error), word, broken;
      }
      word := enc.value;
      var dec, ok := Decode(c, enc.value, false);
      r, broken := Success(dec), !ok;
    }

    // A field outside the comment.
    method ReadField(c: Codec, ghost i: nat, ghost n: nat) returns (r: Result<Bytes>)
      requires Valid() && i < PARTS && i != 2 && c == CodecAt(rs, i) && bytesRead == Start(i, n)
      requires nonCommentDecodeError == AnyBroken(rs, data, i, n)
      modifies this`bytesRead, this`nonCommentDecodeError
      ensures Valid()
      ensures r.Success? ==> bytesRead == Start(i + 1, n) && r.value == Read(rs, data, i, n)
                             && nonCommentDecodeError == AnyBroken(rs, data, i + 1, n)
      ensures r.Failure? ==> r.error == ReadFailed && bytesRead < Start(i + 1, n)
      ensures !faulty ==> (r.Success? <==> Start(i + 1, n) <= |data|)
    {
      FieldCodec(rs, i, n);
      hide Ready, CodecAt, Width, Start, FieldOf, Repaired, Ideal;
      ghost var word;
      var broken;
      r, word, broken := ReadWord(c);
      assert Start(i + 1, n) == Start(i, n) + Width(i, n) by { NextStart(i, n); }
      if broken {
        nonCommentDecodeError := true;
      }
    }

    // The version: its form first, then its generation.
    method ReadVersion(ghost n: nat) returns (r: Result<Bytes>)
      requires Valid() && bytesRead == 0 && !nonCommentDecodeError
      modifies this`bytesRead, this`nonCommentDecodeError
      ensures Valid()
      ensures r.Success? ==> bytesRead == 15 <= |data| && r.value == FieldOf(rs.rs5, data[..15]) && IsSupportedVersion(r.value)
                             && r.value == Read(rs, data, 0, n) && nonCommentDecodeError == AnyBroken(rs, data, 1, n)
      ensures r.Failure? && (!faulty || r.error != ReadFailed) ==> Verdict(rs, data) == Failure(r.error)
    {
      HeadStarts(n);
      if |data| >= 15 {
        assert Slice(data, 0, n) == data[..15];
      }
      var version :- ReadField(rs.rs5, 0, n);
      if !MatchVersion(version) {
        return Failure(InvalidVersion);
      }
      if !IsSupportedVersion(version) {
        return Failure(UnsupportedVersion);
      }
      r := Success(version);
    }

    // The comment length, five digits.
    method ReadLength(ghost n: nat) returns (r: Result<nat>)
      requires Valid() && bytesRead == 15 && nonCommentDecodeError == AnyBroken(rs, data, 1, n)
      modifies this`bytesRead, this`nonCommentDecodeError
      ensures Valid()
      ensures r.Success? ==> bytesRead == 30 && Digits(FieldOf(rs.rs5, data[15..30])) && r.value == Number(FieldOf(rs.rs5, data[15..30]))
                             && r.value <= MAX_COMMENT && nonCommentDecodeError == AnyBroken(rs, data, 2, n)
      ensures r.Failure? && r.error != ReadFailed ==> r.error == InvalidCommentLength && |data| >= 30 && !Digits(FieldOf(rs.rs5, data[15..30]))
      ensures r.Failure? && r.error == ReadFailed && !faulty ==> |data| < 30
    {
      HeadStarts(n);
      if |data| >= 30 {
        assert Slice(data, 1, n) == data[15..30];
      }
      var length :- ReadField(rs.rs5, 1, n);
      if !Digits(length) {
        return Failure(InvalidCommentLength);
      }
      var count := Number(length);
      NumberBound(length);
      FiveDigits();
      if count < 0 || count > MAX_COMMENT {
        return Failure(InvalidCommentLength);
      }
      r := Success(count);
    }

    method ReadComment(i: nat) returns (r: Result<Bytes>)
      requires Valid() && bytesRead == 30 + 3 * i && commentDecodeError == AnyBrokenComment(rs, data, i)
      modifies this`bytesRead, this`commentDecodeError
      ensures Valid()
      ensures r.Success? ==> bytesRead == 33 + 3 * i && r.value == FieldOf(rs.rs1, Triple(data, i))
                             && commentDecodeError == AnyBrokenComment(rs, data, i + 1)
      ensures r.Failure? ==> r.error == ReadFailed && (!faulty ==> |data| < 33 + 3 * i)
    {
      hide Repaired, FieldOf, Ideal;
      ghost var word;
      var broken;
      r, word, broken := ReadWord(rs.rs1);
      if broken {
        commentDecodeError := true;
      }
    }

    // The comment, byte by byte; a byte past repair is kept as it stands.
    method ReadComments(n: nat) returns (r: Result<Bytes>)
      requires Valid() && bytesRead == 30 && !commentDecodeError
      modifies this`bytesRead, this`commentDecodeError
      ensures Valid()
      ensures r.Success? ==> bytesRead == 30 + 3 * n && r.value == Comments(rs, data, n)
                             && commentDecodeError == AnyBrokenComment(rs, data, n)
      ensures r.Failure? ==> r.error == ReadFailed && (!faulty ==> |data| < 30 + 3 * n)
    {
      hide FieldOf, Ready;
      var comments: Bytes := [];
      for i := 0 to n
        invariant Valid() && bytesRead == 30 + 3 * i && comments == Comments(rs, data, i)
        invariant commentDecodeError == AnyBrokenComment(rs, data, i)
      {
        var c :- ReadComment(i);
        comments := comments + c;
      }
      r := Success(comments);
    }

    // Flags and cryptographic values.
    method ReadValues(h: Header, ghost n: nat) returns (r: Result<Header>)
      requires Valid() && bytesRead == Start(3, n) && nonCommentDecodeError == AnyBroken(rs, data, 3, n)
      modifies this`bytesRead, this`nonCommentDecodeError
      ensures Valid()
      ensures r.Success? ==> bytesRead == Start(8, n) && nonCommentDecodeError == AnyBroken(rs, data, 8, n) && r.value == WithValues(rs, data, n, h)
      ensures r.Failure? ==> r.error == ReadFailed && (!faulty ==> |data| < Start(8, n))
    {
      StartsGrow(n);
      hide Ready, Read, Start, Broken, FlagsFromBytes, AnyBroken;
      var flags :- ReadField(rs.rs5, 3, n);
      var salt :- ReadField(rs.rs16, 4, n);
      var hkdfSalt :- ReadField(rs.rs32, 5, n);
      var serpentIV :- ReadField(rs.rs16, 6, n);
      var nonce :- ReadField(rs.rs24, 7, n);
      r := Success(h.(flags := FlagsFromBytes(flags), salt := salt, hkdfSalt := hkdfSalt, serpentIV := serpentIV, nonce := nonce));
    }

    // The authentication values.
    method ReadAuth(h: Header, ghost n: nat) returns (r: Result<Header>)
      requires Valid() && bytesRead == Start(8, n) && nonCommentDecodeError == AnyBroken(rs, data, 8, n)
      modifies this`bytesRead, this`nonCommentDecodeError
      ensures Valid()
      ensures r.Success? ==> bytesRead == Start(PARTS, n) && nonCommentDecodeError == AnyBroken(rs, data, PARTS, n) && r.value == WithAuth(rs, data, n, h)
      ensures r.Failure? ==> r.error == ReadFailed && (!faulty ==> |data| < Start(PARTS, n))
    {
      StartsGrow(n);
      hide Ready, Read, Start, Broken, AnyBroken;
      var keyHash :- ReadField(rs.rs64, 8, n);
      var keyfileHash :- ReadField(rs.rs32, 9, n);
      var authTag :- ReadField(rs.rs64, 10, n);
      r := Success(h.(keyHash := keyHash, keyfileHash := keyfileHash, authTag := authTag));
    }

    // Version, comment length and comment.
    method ReadStart(ghost n: nat) returns (r: Result<Header>)
      requires Valid() && bytesRead == 0 && !commentDecodeError && !nonCommentDecodeError
      requires |data| >= 30 && Digits(FieldOf(rs.rs5, data[15..30])) ==> n == Number(FieldOf(rs.rs5, data[15..30]))
      modifies this`bytesRead, this`commentDecodeError, this`nonCommentDecodeError
      ensures Valid()
      ensures r.Success? ==> bytesRead == 30 + 3 * n && IsSupportedVersion(FieldOf(rs.rs5, data[..15]))
                             && Digits(FieldOf(rs.rs5, data[15..30])) && r.value == Opening(rs, data, n)
      ensures r.Success? ==> commentDecodeError == AnyBrokenComment(rs, data, n) && nonCommentDecodeError == AnyBroken(rs, data, 3, n)
      ensures r.Failure? && (!faulty || r.error != ReadFailed) ==> Verdict(rs, data) == Failure(r.error)
    {
      hide Ready, FieldOf, Read, Start, Broken, AnyBroken, AnyBrokenComment, Comments, Number, MatchVersion;
      var version :- ReadVersion(n);
      var length :- ReadLength(n);
      var comments :- ReadComments(length);
      CommentIsNoField(rs, data, n);
      r := Success(Header(version, comments, Flags(false, false, false, false, false), [], [], [], [], [], [], []));
    }

    // Every part in its order, before the two reports are joined.
    method ReadFields(ghost n: nat) returns (r: Result<Header>)
      requires Valid() && bytesRead == 0 && !commentDecodeError && !nonCommentDecodeError && n == Announced(rs, data)
      modifies this`bytesRead, this`commentDecodeError, this`nonCommentDecodeError
      ensures Valid()
      ensures r.Success? ==> HeaderSize(n) <= |data| && Verdict(rs, data) == Success(n) && r.value == Parsed(rs, data, n)
      ensures r.Success? ==> bytesRead == HeaderSize(n) && commentDecodeError == AnyBrokenComment(rs, data, n)
                             && nonCommentDecodeError == AnyBroken(rs, data, PARTS, n)
      ensures r.Failure? && (!faulty || r.error != ReadFailed) ==> Verdict(rs, data) == Failure(r.error)
    {
      Layout(n);
      hide Ready, FieldOf, Read, Start, Broken, FlagsFromBytes, AnyBroken, AnyBrokenComment, Comments, Number, MatchVersion,
           IsSupportedVersion, Digits, Verdict, Parsed, WithAuth, WithValues, Opening;
      var h :- ReadStart(n);
      VerdictAfterStart(rs, data, n);
      h :- ReadValues(h, n);
      r := ReadAuth(h, n);
    }

    // ReadHeader: on a stream that does not fail it returns what the bytes say, or the first thing wrong
    // with them; it takes exactly the header, and reports every part that could not be repaired.
    method ReadHeader() returns (r: Result<Header>)
      requires Valid() && bytesRead == 0 && !commentDecodeError && !nonCommentDecodeError && !decodeError
      modifies this
      ensures Valid()
      ensures r.Success? ==> var n := |r.value.comments|;
                Verdict(rs, data) == Success(n) && r.value == Parsed(rs, data, n) && bytesRead == HeaderSize(n)
                && commentDecodeError == AnyBrokenComment(rs, data, n) && nonCommentDecodeError == AnyBroken(rs, data, PARTS, n)
                && decodeError == (commentDecodeError || nonCommentDecodeError)
      ensures r.Failure? && (!faulty || r.error != ReadFailed) ==> Verdict(rs, data) == Failure(r.error)
      ensures r.Failure? ==> !decodeError
    {
      ghost var n := Announced(rs, data);
      hide Ready, FieldOf, AnyBroken, AnyBrokenComment, Verdict, Parsed, Announced;
      var h :- ReadFields(n);
      decodeError := commentDecodeError || nonCommentDecodeError;
      ParsedComments(rs, data, n);
      r := Success(h);
    }
  }

  // The comment length the stream announces, if it announces any.
  ghost function Announced(rs: Codecs, d: Bytes): nat
    requires Ready(rs)
  {
    if |d| >= 30 && Digits(FieldOf(rs.rs5, d[15..30])) then Number(FieldOf(rs.rs5, d[15..30])) else 0
  }

  // Once version and comment length are right, only the length of the stream can be wrong.
  lemma VerdictAfterStart(rs: Codecs, d: Bytes, n: nat)
    requires Ready(rs) && |d| >= 30 && IsSupportedVersion(FieldOf(rs.rs5, d[..15]))
    requires Digits(FieldOf(rs.rs5, d[15..30])) && n == Number(FieldOf(rs.rs5, d[15..30]))
    ensures Verdict(rs, d) == if |d| < HeaderSize(n) then Failure(ReadFailed) else Success(n)
    ensures |d| >= HeaderSize(n) ==>
              Start(PARTS, n) == HeaderSize(n) && Start(8, n) <= |d| && 30 + 3 * n <= |d|
              && Parsed(rs, d, n) == WithAuth(rs, d, n, WithValues(rs, d, n, Opening(rs, d, n)))
  {
    Layout(n);
  }

  lemma ParsedComments(rs: Codecs, d: Bytes, n: nat)
    requires Ready(rs) && HeaderSize(n) <= |d|
    ensures |Parsed(rs, d, n).comments| == n
  {
  }

  lemma StartsGrow(n: nat)
    ensures forall i :: 0 <= i < PARTS ==> Start(i, n) <= Start(i + 1, n)
    ensures Start(4, n) <= Start(5, n) <= Start(6, n) <= Start(7, n) <= Start(8, n) <= Start(9, n) <= Start(10, n) <= Start(PARTS, n)
  {
  }

  ghost predicate AnyBrokenComment(rs: Codecs, d: Bytes, n: nat)
    requires Ready(rs)
  {
    n > 0 && (AnyBrokenComment(rs, d, n - 1) || BrokenComment(rs, d, n - 1))
  }

  // Some part before i could not be repaired.
  ghost predicate AnyBroken(rs: Codecs, d: Bytes, i: nat, n: nat)
    requires Ready(rs)
  {
    i > 0 && (AnyBroken(rs, d, i - 1, n) || Broken(rs, d, i - 1, n))
  }

  lemma NextStart(i: nat, n: nat)
    ensures Start(i + 1, n) == Start(i, n) + Width(i, n)
  {
  }

  lemma FieldCodec(rs: Codecs, i: nat, n: nat)
    requires Ready(rs) && i < PARTS && i != 2
    ensures var c := CodecAt(rs, i); Ideal(c) && c.total == 3 * c.required == Width(i, n) && c.total != WORD
  {
  }

  // The comment is not among the parts whose damage is a field's.
  lemma CommentIsNoField(rs: Codecs, d: Bytes, n: nat)
    requires Ready(rs)
    ensures AnyBroken(rs, d, 3, n) == AnyBroken(rs, d, 2, n)
  {
  }

  // ----- what was written is what is read -----

  // A stored field within its codec's reach: at most a third of its bytes differ.
  ghost predicate CloseAt(rs: Codecs, d: Bytes, h: Header, i: nat)
    requires Ready(rs) && WellFormed(h) && HeaderSize(|h.comments|) <= |d|
  {
    i < PARTS && i != 2 ==>
      var n := |h.comments|;
      FieldSize(rs, h, i);
      Distance(Slice(d, i, n), EncodeWord(CodecAt(rs, i), Field(h, i))) <= |Field(h, i)|
  }

  // A stored comment byte: at most one of its three bytes differs.
  ghost predicate CloseComment(rs: Codecs, d: Bytes, h: Header, j: nat)
    requires Ready(rs) && HeaderSize(|h.comments|) <= |d|
  {
    j < |h.comments| ==> Distance(Triple(d, j), EncodeWord(rs.rs1, [h.comments[j]])) <= 1
  }

  ghost predicate Close(rs: Codecs, d: Bytes, h: Header)
    requires Ready(rs) && WellFormed(h)
  {
    && HeaderSize(|h.comments|) <= |d|
    && (forall i: nat :: CloseAt(rs, d, h, i))
    && (forall j: nat :: CloseComment(rs, d, h, j))
  }

  lemma FieldSize(rs: Codecs, h: Header, i: nat)
    requires Ready(rs) && WellFormed(h) && i < PARTS && i != 2
    ensures Rate(CodecAt(rs, i), |Field(h, i)|) && Ideal(CodecAt(rs, i)) && CodecAt(rs, i).total != WORD
    ensures Width(i, |h.comments|) == CodecAt(rs, i).total
    ensures Start(i, |h.comments|) + Width(i, |h.comments|) <= HeaderSize(|h.comments|)
  {
    hide Decimal, ToBytes, Ideal;
    Layout(|h.comments|);
  }

  lemma FieldRead(rs: Codecs, d: Bytes, h: Header, i: nat)
    requires Ready(rs) && WellFormed(h) && Close(rs, d, h) && i < PARTS && i != 2
    ensures var n := |h.comments|; Start(i, n) + Width(i, n) <= |d| && Read(rs, d, i, n) == Field(h, i) && !Broken(rs, d, i, n)
  {
    FieldSize(rs, h, i);
    assert CloseAt(rs, d, h, i);
    hide Ready, WellFormed, CodecAt, Field, Width, Start, Ideal, Distance, EncodeWord, FieldOf, Repaired, Close;
    Near(CodecAt(rs, i), Slice(d, i, |h.comments|), Field(h, i));
  }

  lemma {:induction false} CommentsRead(rs: Codecs, d: Bytes, h: Header, n: nat)
    requires Ready(rs) && WellFormed(h) && Close(rs, d, h) && n <= |h.comments|
    ensures Comments(rs, d, n) == h.comments[..n] && !AnyBrokenComment(rs, d, n)
  {
    if n > 0 {
      CommentsRead(rs, d, h, n - 1);
      assert CloseComment(rs, d, h, n - 1);
      hide WellFormed, Close, Distance, EncodeWord, FieldOf, Repaired;
      Near(rs.rs1, Triple(d, n - 1), [h.comments[n - 1]]);
      assert h.comments[..n] == h.comments[..n - 1] + [h.comments[n - 1]];
    }
  }

  lemma {:induction false} NoneBroken(rs: Codecs, d: Bytes, h: Header, i: nat)
    requires Ready(rs) && WellFormed(h) && Close(rs, d, h) && i <= PARTS
    ensures !AnyBroken(rs, d, i, |h.comments|)
  {
    if i > 0 {
      NoneBroken(rs, d, h, i - 1);
      if i - 1 != 2 {
        FieldRead(rs, d, h, i - 1);
      }
    }
  }

  /** A stored header within reach of its codes parses to the header that was written, with no damage
      reported, and ends after HeaderSize bytes. */
  lemma RepairedHeader(rs: Codecs, d: Bytes, h: Header)
    requires Ready(rs) && WellFormed(h) && Close(rs, d, h)
    ensures var n := |h.comments|;
            Verdict(rs, d) == Success(n) && Parsed(rs, d, n) == h && !AnyBroken(rs, d, PARTS, n) && !AnyBrokenComment(rs, d, n)
  {
    var n := |h.comments|;
    FieldRead(rs, d, h, 0);
    FieldRead(rs, d, h, 1);
    FieldRead(rs, d, h, 3);
    FieldRead(rs, d, h, 4);
    FieldRead(rs, d, h, 5);
    FieldRead(rs, d, h, 6);
    FieldRead(rs, d, h, 7);
    FieldRead(rs, d, h, 8);
    FieldRead(rs, d, h, 9);
    FieldRead(rs, d, h, 10);
    CommentsRead(rs, d, h, n);
    NoneBroken(rs, d, h, PARTS);
    HeadRead(rs, d, n);
    Layout(n);
    FiveDigits();
    NumberDecimal(n, 5);
    assert h.comments[..n] == h.comments;
    hide Ready, Start, Read, Close, FieldOf, Comments, Number, Decimal, AnyBroken, AnyBrokenComment;
  }

  lemma HeadRead(rs: Codecs, d: Bytes, n: nat)
    requires Ready(rs) && HeaderSize(n) <= |d|
    ensures Start(0, n) + Width(0, n) <= |d| && Start(1, n) + Width(1, n) <= |d|
    ensures Read(rs, d, 0, n) == FieldOf(rs.rs5, d[..15]) && Read(rs, d, 1, n) == FieldOf(rs.rs5, d[15..30])
  {
    HeadStarts(n);
    assert Slice(d, 0, n) == d[..15] && Slice(d, 1, n) == d[15..30];
  }

  lemma {:induction false} CommentAt(c: Codec, comments: Bytes, j: nat)
    requires Rate(c, 1) && j < |comments|
    ensures EncodeComments(c, comments)[3 * j..3 * j + 3] == EncodeWord(c, [comments[j]])
  {
    var n := |comments| - 1;
    if j < n {
      CommentAt(c, comments[..n], j);
      var head := EncodeComments(c, comments[..n]);
      assert EncodeComments(c, comments)[..|head|] == head;
    }
  }

  // An undamaged image is within reach of itself, whatever follows it.
  lemma Intact(rs: Codecs, h: Header, rest: Bytes)
    requires Ready(rs) && WellFormed(h)
    ensures Close(rs, Join(Parts(rs, h)) + rest, h)
  {
    var n, image := |h.comments|, Join(Parts(rs, h));
    var d := image + rest;
    Widths(rs, h);
    ImageLayout(Parts(rs, h), n);
    forall i: nat
      ensures CloseAt(rs, d, h, i)
    {
      if i < PARTS && i != 2 {
        IntactField(rs, h, rest, i);
      }
    }
    forall j: nat
      ensures CloseComment(rs, d, h, j)
    {
      if j < n {
        IntactComment(rs, h, rest, j);
      }
    }
  }

  lemma IntactField(rs: Codecs, h: Header, rest: Bytes, i: nat)
    requires Ready(rs) && WellFormed(h) && i < PARTS && i != 2
    requires HeaderSize(|h.comments|) == |Join(Parts(rs, h))|
    ensures CloseAt(rs, Join(Parts(rs, h)) + rest, h, i)
  {
    hide Ideal, Join, WellFormed, Width, Start, CodecAt, Field, EncodeWord, Distance, Fits;
    FieldSize(rs, h, i);
    WholeField(rs, h, i);
    SliceAt(rs, h, rest, i);
    NoDistance(EncodeWord(CodecAt(rs, i), Field(h, i)));
  }

  lemma WholeField(rs: Codecs, h: Header, i: nat)
    requires Ready(rs) && WellFormed(h) && i < PARTS && i != 2
    ensures Rate(CodecAt(rs, i), |Field(h, i)|) && Parts(rs, h)[i] == EncodeWord(CodecAt(rs, i), Field(h, i))
  {
    FieldSize(rs, h, i);
    hide CodecAt, Field, EncodeWord, Ideal;
  }

  // Part i is found in its place, whatever follows the image.
  lemma SliceAt(rs: Codecs, h: Header, rest: Bytes, i: nat)
    requires Ready(rs) && WellFormed(h) && i < PARTS
    ensures var n := |h.comments|;
            Start(i, n) + Width(i, n) <= |Join(Parts(rs, h)) + rest| && Slice(Join(Parts(rs, h)) + rest, i, n) == Parts(rs, h)[i]
  {
    Widths(rs, h);
    hide Ready, WellFormed, Parts, Join, Width, Start, Fits;
    PartAt(Parts(rs, h), |h.comments|, i);
    SliceFront(Join(Parts(rs, h)), rest, i, |h.comments|);
  }

  // Where the fields of a stored header begin, and what stands there.
  function Offset(i: nat, n: nat): nat
  {
    match i
    case 0 => 0 case 1 => 15 case 2 => 30 case 3 => 30 + 3 * n case 4 => 45 + 3 * n case 5 => 93 + 3 * n
    case 6 => 189 + 3 * n case 7 => 237 + 3 * n case 8 => 309 + 3 * n case 9 => 501 + 3 * n case 10 => 597 + 3 * n case _ => 789 + 3 * n
  }

  ghost function Stored(rs: Codecs, h: Header, i: nat): Bytes
    requires Ready(rs) && WellFormed(h) && i < PARTS
  {
    match i
    case 0 => EncodeWord(rs.rs5, h.version)
    case 1 => EncodeWord(rs.rs5, Decimal(|h.comments|, 5))
    case 2 => EncodeComments(rs.rs1, h.comments)
    case 3 => EncodeWord(rs.rs5, ToBytes(h.flags))
    case 4 => EncodeWord(rs.rs16, h.salt)
    case 5 => EncodeWord(rs.rs32, h.hkdfSalt)
    case 6 => EncodeWord(rs.rs16, h.serpentIV)
    case 7 => EncodeWord(rs.rs24, h.nonce)
    case 8 => EncodeWord(rs.rs64, h.keyHash)
    case 9 => EncodeWord(rs.rs32, h.keyfileHash)
    case _ => EncodeWord(rs.rs64, h.authTag)
  }

  lemma StoredFields(rs: Codecs, h: Header, rest: Bytes, i: nat)
    requires Ready(rs) && WellFormed(h) && i < PARTS
    ensures var d, n := Join(Parts(rs, h)) + rest, |h.comments|;
            Offset(i, n) <= Offset(i + 1, n) <= |d| && d[Offset(i, n)..Offset(i + 1, n)] == Stored(rs, h, i)
  {
    Offsets(i, |h.comments|);
    StoredPart(rs, h, i);
    hide Ready, WellFormed, Parts, PartOf, Join, Start, Width, Offset, Stored;
    SliceAt(rs, h, rest, i);
    PartIs(rs, h, i);
  }

  lemma PartIs(rs: Codecs, h: Header, i: nat)
    requires Ready(rs) && i < PARTS
    ensures Parts(rs, h)[i] == PartOf(rs, h, i)
  {
  }

  lemma Offsets(i: nat, n: nat)
    requires i < PARTS
    ensures Offset(i, n) == Start(i, n) && Offset(i + 1, n) == Start(i, n) + Width(i, n)
  {
    Layout(n);
  }

  lemma StoredPart(rs: Codecs, h: Header, i: nat)
    requires Ready(rs) && WellFormed(h) && i < PARTS
    ensures PartOf(rs, h, i) == Stored(rs, h, i)
  {
    hide EncodeWord, EncodeComments, Ideal;
    assert |Decimal(|h.comments|, 5)| == 5;
  }

  lemma SliceFront(d: Bytes, rest: Bytes, i: nat, n: nat)
    requires Start(i, n) + Width(i, n) <= |d|
    ensures Slice(d + rest, i, n) == Slice(d, i, n)
  {
    hide Start, Width;
  }

  lemma IntactComment(rs: Codecs, h: Header, rest: Bytes, j: nat)
    requires Ready(rs) && WellFormed(h) && j < |h.comments|
    requires HeaderSize(|h.comments|) == |Join(Parts(rs, h))|
    ensures CloseComment(rs, Join(Parts(rs, h)) + rest, h, j)
  {
    hide Ready, Join, Parts, WellFormed, Width, Start, EncodeWord, EncodeComments, Distance, Fits;
    CodedComments(rs, h, rest);
    CommentAt(rs.rs1, h.comments, j);
    NoDistance(EncodeWord(rs.rs1, [h.comments[j]]));
    TripleAt(Join(Parts(rs, h)) + rest, EncodeComments(rs.rs1, h.comments), j);
  }

  lemma TripleAt(d: Bytes, coded: Bytes, j: nat)
    requires 3 * j + 3 <= |coded| && 30 + |coded| <= |d| && d[30..30 + |coded|] == coded
    ensures Triple(d, j) == coded[3 * j..3 * j + 3]
  {
    var whole, t := d[30..30 + |coded|], coded[3 * j..3 * j + 3];
    assert forall k :: 0 <= k < 3 ==> t[k] == coded[3 * j + k] == whole[3 * j + k] == d[30 + 3 * j + k] == Triple(d, j)[k];
  }

  lemma CodedComments(rs: Codecs, h: Header, rest: Bytes)
    requires Ready(rs) && WellFormed(h)
    ensures var d, coded := Join(Parts(rs, h)) + rest, EncodeComments(rs.rs1, h.comments);
            Rate(rs.rs1, 1) && rs.rs1.total != WORD && 30 + |coded| <= |d| && d[30..30 + |coded|] == coded
  {
    var n, image := |h.comments|, Join(Parts(rs, h));
    Widths(rs, h);
    HeadStarts(n);
    assert Parts(rs, h)[2] == EncodeComments(rs.rs1, h.comments);
    assert Width(2, n) == 3 * n;
    hide Join, Parts, WellFormed, Width, Start, EncodeComments, Fits, Ideal;
    PartAt(Parts(rs, h), n, 2);
    assert (image + rest)[30..30 + 3 * n] == image[30..30 + 3 * n];
  }

  /** Header, payload, authentication values, then a reader on the volume: if no write fails the reader
      returns the header, and stops where the payload begins. */
  method Session(rs: Codecs, h: Header, payload: Bytes, faulty: bool) returns (volume: Bytes, wrote: bool, r: Result<Header>, at: nat)
    requires Ready(rs)
    ensures wrote ==> Writable(h) && AuthValues(h.keyHash, h.keyfileHash, h.authTag)
                      && volume == Join(Parts(rs, h)) + payload
    ensures wrote && IsSupportedVersion(h.version) ==>
              r == Success(h) && at == HeaderSize(|h.comments|) <= |volume| && volume[at..] == payload
    ensures Writable(h) && AuthValues(h.keyHash, h.keyfileHash, h.authTag) && !faulty ==> wrote
  {
    hide Ready, Parts, Draft, Join, Encoded, Patched;
    r, at := Failure(ReadFailed), 0;
    var v := new Volume(faulty);
    var total;
    total, wrote := WriteHeader(v, rs, h);
    if !wrote {
      return v.data, wrote, r, at;
    }
    assert v.data == Join(Draft(rs, h));
    var n;
    n, wrote := v.Write(payload);
    if !wrote {
      return v.data, wrote, r, at;
    }
    assert v.data == Join(Draft(rs, h)) + payload;
    wrote := WriteAuthValues(v, AuthValuesOffset(|h.comments|), h.keyHash, h.keyfileHash, h.authTag, rs);
    volume := v.data;
    if !wrote {
      return;
    }
    PatchedDraft(rs, h, payload);
    Widths(rs, h);
    ImageLayout(Parts(rs, h), |h.comments|);
    var reader := new Reader(rs, volume, false);
    r := reader.ReadHeader();
    at := reader.bytesRead;
    if IsSupportedVersion(h.version) {
      Intact(rs, h, payload);
      RepairedHeader(rs, volume, h);
    }
  }

  // ----- the v2 header MAC -----

  // The fields ComputeV2HeaderMAC feeds its hash, in order.
  function MacParts(h: Header, keyfileHash: Bytes): (p: seq<Bytes>)
    ensures |p| == 9
  {
    [h.version, Decimal(|h.comments|, 5), h.comments, ToBytes(h.flags), h.salt, h.hkdfSalt, h.serpentIV, h.nonce, keyfileHash]
  }

  function MacMessage(h: Header, keyfileHash: Bytes): Bytes
  {
    Join(MacParts(h, keyfileHash))
  }

  // Where each field stands in the message.
  lemma MacFields(h: Header, keyfileHash: Bytes)
    requires Writable(h)
    ensures var m, n := MacMessage(h, keyfileHash), |h.comments|;
            && |m| == 103 + n + |keyfileHash| && m[..5] == h.version && m[5..10] == Decimal(n, 5) && m[10..10 + n] == h.comments
            && m[10 + n..15 + n] == ToBytes(h.flags) && m[15 + n..31 + n] == h.salt && m[31 + n..63 + n] == h.hkdfSalt
            && m[63 + n..79 + n] == h.serpentIV && m[79 + n..103 + n] == h.nonce && m[103 + n..] == keyfileHash
  {
    var p := MacParts(h, keyfileHash);
    MacStarts(h, keyfileHash);
    hide Join, Decimal, ToBytes, MacParts, Before;
    JoinSlice(p, 0);
    JoinSlice(p, 1);
    JoinSlice(p, 2);
    JoinSlice(p, 3);
    JoinSlice(p, 4);
    JoinSlice(p, 5);
    JoinSlice(p, 6);
    JoinSlice(p, 7);
    JoinSlice(p, 8);
    assert p[..9] == p;
  }

  lemma MacStarts(h: Header, keyfileHash: Bytes)
    requires Writable(h)
    ensures var p, n := MacParts(h, keyfileHash), |h.comments|;
            && p == [h.version, Decimal(n, 5), h.comments, ToBytes(h.flags), h.salt, h.hkdfSalt, h.serpentIV, h.nonce, keyfileHash]
            && |Decimal(n, 5)| == 5
            && Before(p, 0) == 0 && Before(p, 1) == 5 && Before(p, 2) == 10 && Before(p, 3) == 10 + n && Before(p, 4) == 15 + n
            && Before(p, 5) == 31 + n && Before(p, 6) == 63 + n && Before(p, 7) == 79 + n && Before(p, 8) == 103 + n
            && |Join(p)| == 103 + n + |keyfileHash|
  {
    var p := MacParts(h, keyfileHash);
    hide Decimal, ToBytes;
    JoinNext(p, 0);
    JoinNext(p, 1);
    JoinNext(p, 2);
    JoinNext(p, 3);
    JoinNext(p, 4);
    JoinNext(p, 5);
    JoinNext(p, 6);
    JoinNext(p, 7);
    JoinNext(p, 8);
    assert p[..9] == p;
  }

  /** Two well-formed headers with the same MAC message agree on every field the MAC is to protect, and
      were given the same keyfile hash. */
  lemma MacInjective(a: Header, ka: Bytes, b: Header, kb: Bytes)
    requires Writable(a) && Writable(b) && |ka| == |kb| == 32
    requires MacMessage(a, ka) == MacMessage(b, kb)
    ensures a.(keyHash := [], keyfileHash := [], authTag := []) == b.(keyHash := [], keyfileHash := [], authTag := [])
    ensures ka == kb
  {
    var p, q := MacParts(a, ka), MacParts(b, kb);
    SecondPart(p);
    SecondPart(q);
    FiveDigits();
    NumberDecimal(|a.comments|, 5);
    NumberDecimal(|b.comments|, 5);
    hide Join, Decimal, Number;
    JoinInjective(p, q);
    assert p[0] == q[0] && p[2] == q[2] && p[3] == q[3] && p[4] == q[4] && p[5] == q[5] && p[6] == q[6] && p[7] == q[7] && p[8] == q[8];
    assert FlagsFromBytes(p[3]) == FlagsFromBytes(q[3]);
  }

  lemma SecondPart(p: seq<Bytes>)
    requires |p| == 9 && |p[0]| == |p[1]| == 5
    ensures |Join(p)| >= 10 && Join(p)[5..10] == p[1]
  {
    JoinNext(p, 0);
    JoinSlice(p, 1);
  }
}
