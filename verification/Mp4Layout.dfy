/**
 * Files as a writer lays them out, and the proof that the duration reader accepts exactly
 * those files: a run of other boxes, a movie box, a run of other children, a movie header box.
 */
module Mp4Layout {
  import opened Common
  import opened Bytes
  import opened Mp4Box

  /** The three encodings of a box size. */
  datatype SizeForm = Short | Long | ToEnd

  datatype Box = Box(kind: seq<Byte>, form: SizeForm, payload: seq<Byte>)

  predicate ValidBox(b: Box) {
    && |b.kind| == 4
    && (b.form.Short? ==> |b.payload| + 8 <= U32_MAX)
    && (b.form.Long? ==> |b.payload| + 16 <= U64_MAX)
  }

  function Encode(b: Box): (s: seq<Byte>) {
    match b.form
    case Short => ToBe(|b.payload| + 8, 4) + b.kind + b.payload
    case Long => ToBe(1, 4) + b.kind + ToBe(|b.payload| + 16, 8) + b.payload
    case ToEnd => ToBe(0, 4) + b.kind + b.payload
  }

  function EncodeAll(bs: seq<Box>): seq<Byte> {
    if bs == [] then [] else Encode(bs[0]) + EncodeAll(bs[1..])
  }

  /** Boxes that can be stepped over: sized, and not of the kind looked for. */
  predicate Skippable(bs: seq<Box>, wanted: seq<Byte>) {
    forall b | b in bs :: ValidBox(b) && !b.form.ToEnd? && b.kind != wanted
  }

  /** The fields of a movie header box; the two versions differ in the width of their times. */
  datatype MovieHeader =
    | V0(flags: seq<Byte>, times: seq<Byte>, timescale: nat, duration: nat, more: seq<Byte>)
    | V1(flags: seq<Byte>, times: seq<Byte>, timescale: nat, duration: nat, more: seq<Byte>)

  predicate ValidHeader(m: MovieHeader) {
    && |m.flags| == 3
    && m.timescale <= U32_MAX
    && match m
       case V0(_, times, _, duration, _) => |times| == 8 && duration <= U32_MAX
       case V1(_, times, _, duration, _) => |times| == 16 && duration <= U64_MAX
  }

  function HeaderPayload(m: MovieHeader): seq<Byte> {
    match m
    case V0(flags, times, timescale, duration, more) =>
      [0] + flags + times + ToBe(timescale, 4) + ToBe(duration, 4) + more
    case V1(flags, times, timescale, duration, more) =>
      [1] + flags + times + ToBe(timescale, 4) + ToBe(duration, 8) + more
  }

  /** A whole file: `innerRest` follows the movie header inside the movie box, `rest` follows the movie box. */
  datatype Movie = Movie(
    before: seq<Box>,
    form: SizeForm,
    children: seq<Box>,
    headerForm: SizeForm,
    header: MovieHeader,
    innerRest: seq<Byte>,
    rest: seq<Byte>)

  function HeaderBox(m: Movie): Box {
    Box(MVHD, m.headerForm, HeaderPayload(m.header))
  }

  function MoovBox(m: Movie): Box {
    Box(MOOV, m.form, EncodeAll(m.children) + Encode(HeaderBox(m)) + m.innerRest)
  }

  function Render(m: Movie): seq<Byte> {
    EncodeAll(m.before) + Encode(MoovBox(m)) + m.rest
  }

  predicate ValidMovie(m: Movie) {
    && Skippable(m.before, MOOV)
    && Skippable(m.children, MVHD)
    && ValidHeader(m.header)
    && ValidBox(HeaderBox(m))
    && ValidBox(MoovBox(m))
    && (m.headerForm.ToEnd? ==> m.innerRest == [])
    && (m.form.ToEnd? ==> m.rest == [])
  }

  /** Whole milliseconds of `duration` ticks, capped at the largest 64-bit value. */
  function DurationMs(m: MovieHeader): nat
    requires m.timescale != 0
  {
    Min(m.duration * 1_000 / m.timescale, U64_MAX)
  }

  // ---------------------------------------------------------------------------
  // Reading back what was written.

  lemma EncodedBoxReads(b: Box, rest: seq<Byte>)
    requires ValidBox(b) && (b.form.ToEnd? ==> rest == [])
    requires |Encode(b) + rest| <= USIZE_MAX
    ensures var s := Encode(b) + rest;
            && ReadBox(s, 0, |s|).Some?
            && var h := ReadBox(s, 0, |s|).value;
               && h.boxType == b.kind
               && h.nextOffset == |Encode(b)|
               && s[h.payloadStart..h.payloadEnd] == b.payload
               && s[h.nextOffset..] == rest
  {
    hide FromBe, ToBe;
    Widths();
    var s := Encode(b) + rest;
    var n := |b.payload|;
    match b.form {
      case Short =>
        DecodeEncode(n + 8, 4);
        assert s[0..4] == ToBe(n + 8, 4) && s[4..8] == b.kind;
      case Long =>
        DecodeEncode(1, 4);
        DecodeEncode(n + 16, 8);
        assert s[0..4] == ToBe(1, 4) && s[4..8] == b.kind && s[8..16] == ToBe(n + 16, 8);
      case ToEnd =>
        DecodeEncode(0, 4);
        assert s[0..4] == ToBe(0, 4) && s[4..8] == b.kind;
    }
  }

  lemma {:induction false} SkipsChildren(bs: seq<Box>, tail: seq<Byte>)
    requires Skippable(bs, MVHD) && |EncodeAll(bs) + tail| <= USIZE_MAX
    ensures ParseMoov(EncodeAll(bs) + tail) == ParseMoov(tail)
  {
    hide ReadBox, Encode;
    if bs == [] {
      assert EncodeAll(bs) + tail == tail;
    } else {
      var rest := EncodeAll(bs[1..]) + tail;
      assert EncodeAll(bs) + tail == Encode(bs[0]) + rest;
      EncodedBoxReads(bs[0], rest);
      SkipsChildren(bs[1..], tail);
    }
  }

  lemma {:induction false} SkipsBoxes(bs: seq<Box>, tail: seq<Byte>)
    requires Skippable(bs, MOOV) && |EncodeAll(bs) + tail| <= USIZE_MAX
    ensures ParseFile(EncodeAll(bs) + tail) == ParseFile(tail)
  {
    hide ReadBox, Encode, ParseMoov;
    if bs == [] {
      assert EncodeAll(bs) + tail == tail;
    } else {
      var rest := EncodeAll(bs[1..]) + tail;
      assert EncodeAll(bs) + tail == Encode(bs[0]) + rest;
      EncodedBoxReads(bs[0], rest);
      SkipsBoxes(bs[1..], tail);
    }
  }

  lemma HeaderReads(m: MovieHeader)
    requires ValidHeader(m)
    ensures ParseMvhd(HeaderPayload(m)) == if m.timescale == 0 then None else Some(DurationMs(m))
  {
    hide FromBe, ToBe;
    Widths();
    var p := HeaderPayload(m);
    DecodeEncode(m.timescale, 4);
    match m {
      case V0(_, _, _, _, _) =>
        DecodeEncode(m.duration, 4);
        assert p[12..16] == ToBe(m.timescale, 4) && p[16..20] == ToBe(m.duration, 4);
      case V1(_, _, _, _, _) =>
        DecodeEncode(m.duration, 8);
        assert p[20..24] == ToBe(m.timescale, 4) && p[24..32] == ToBe(m.duration, 8);
    }
  }

  /** Reading a rendered movie gives its duration, whatever size encodings and surroundings were chosen. */
  lemma RenderedMovieReads(m: Movie)
    requires ValidMovie(m) && |Render(m)| <= USIZE_MAX
    ensures ParseFile(Render(m)) == if m.header.timescale == 0 then None else Some(DurationMs(m.header))
  {
    hide ReadBox, Encode, EncodeAll, HeaderPayload, ParseMvhd;
    var moov := MoovBox(m);
    var header := HeaderBox(m);
    assert Render(m) == EncodeAll(m.before) + (Encode(moov) + m.rest);
    SkipsBoxes(m.before, Encode(moov) + m.rest);
    EncodedBoxReads(moov, m.rest);
    EncodedSize(moov);
    assert moov.payload == EncodeAll(m.children) + (Encode(header) + m.innerRest);
    SkipsChildren(m.children, Encode(header) + m.innerRest);
    EncodedBoxReads(header, m.innerRest);
    HeaderReads(m.header);
  }

  lemma EncodedSize(b: Box)
    requires |b.kind| == 4
    ensures |Encode(b)| == |b.payload| + (if b.form.Long? then 16 else 8)
  {
  }

  // ---------------------------------------------------------------------------
  // Everything that reads was laid out this way.

  /** Every box header the reader accepts is the encoding of a box. */
  lemma ReadBoxIsEncoded(s: seq<Byte>) returns (b: Box)
    requires ReadBox(s, 0, |s|).Some?
    ensures var h := ReadBox(s, 0, |s|).value;
            && ValidBox(b)
            && b.kind == h.boxType
            && b.payload == s[h.payloadStart..h.payloadEnd]
            && (b.form.ToEnd? ==> h.nextOffset == |s|)
            && s == Encode(b) + s[h.nextOffset..]
  {
    hide FromBe, ToBe;
    Widths();
    var h := ReadBox(s, 0, |s|).value;
    var raw := FromBe(s[0..4]);
    var form := if raw == 0 then ToEnd else if raw == 1 then Long else Short;
    b := Box(h.boxType, form, s[h.payloadStart..h.payloadEnd]);
    EncodeDecode(s[0..4]);
    if form == Long {
      EncodeDecode(s[8..16]);
      assert s[..h.nextOffset] == s[0..4] + s[4..8] + s[8..16] + s[16..h.nextOffset];
    } else {
      assert s[..h.nextOffset] == s[0..4] + s[4..8] + s[8..h.nextOffset];
    }
    assert s == s[..h.nextOffset] + s[h.nextOffset..];
  }

  lemma CutInSix(s: seq<Byte>, a: nat, b: nat, c: nat, d: nat, e: nat)
    requires a <= b <= c <= d <= e <= |s|
    ensures s == s[..a] + s[a..b] + s[b..c] + s[c..d] + s[d..e] + s[e..]
  {
  }

  lemma HeaderIsRendered(p: seq<Byte>) returns (m: MovieHeader)
    requires ParseMvhd(p).Some?
    ensures ValidHeader(m) && m.timescale != 0 && HeaderPayload(m) == p
  {
    hide FromBe, ToBe;
    Widths();
    assert p[..1] == [p[0]];
    if p[0] == 0 {
      m := V0(p[1..4], p[4..12], FromBe(p[12..16]), FromBe(p[16..20]), p[20..]);
      EncodeDecode(p[12..16]);
      EncodeDecode(p[16..20]);
      CutInSix(p, 1, 4, 12, 16, 20);
    } else {
      m := V1(p[1..4], p[4..20], FromBe(p[20..24]), FromBe(p[24..32]), p[32..]);
      EncodeDecode(p[20..24]);
      EncodeDecode(p[24..32]);
      CutInSix(p, 1, 4, 20, 24, 32);
    }
  }

  lemma PrependBox(b: Box, bs: seq<Box>, middle: seq<Byte>, rest: seq<Byte>)
    ensures Encode(b) + (EncodeAll(bs) + middle + rest) == EncodeAll([b] + bs) + middle + rest
  {
    hide Encode;
    assert ([b] + bs)[1..] == bs;
  }

  lemma {:induction false} MoovIsRendered(s: seq<Byte>)
    returns (children: seq<Box>, form: SizeForm, header: MovieHeader, innerRest: seq<Byte>)
    requires ParseMoov(s).Some?
    ensures Skippable(children, MVHD) && ValidHeader(header) && header.timescale != 0
    ensures var b := Box(MVHD, form, HeaderPayload(header));
            ValidBox(b) && s == EncodeAll(children) + Encode(b) + innerRest
    ensures form.ToEnd? ==> innerRest == []
    decreases |s|
  {
    hide ReadBox, Encode, ParseMvhd, HeaderPayload;
    var h := ReadBox(s, 0, |s|).value;
    var b := ReadBoxIsEncoded(s);
    var tail := s[h.nextOffset..];
    if h.boxType == MVHD {
      children, form, innerRest := [], b.form, tail;
      header := HeaderIsRendered(b.payload);
      assert EncodeAll(children) + Encode(b) + innerRest == s;
    } else {
      var cs;
      cs, form, header, innerRest := MoovIsRendered(tail);
      children := [b] + cs;
      PrependBox(b, cs, Encode(Box(MVHD, form, HeaderPayload(header))), innerRest);
    }
  }

  lemma {:induction false} FileIsRendered(s: seq<Byte>) returns (m: Movie)
    requires ParseFile(s).Some?
    ensures ValidMovie(m) && m.header.timescale != 0 && Render(m) == s
    decreases |s|
  {
    hide ReadBox, Encode, ParseMoov, HeaderPayload;
    var h := ReadBox(s, 0, |s|).value;
    var b := ReadBoxIsEncoded(s);
    var tail := s[h.nextOffset..];
    if h.boxType == MOOV {
      var children, form, header, innerRest := MoovIsRendered(b.payload);
      m := Movie([], b.form, children, form, header, innerRest, tail);
      assert MoovBox(m) == b;
      assert Render(m) == Encode(b) + tail;
    } else {
      var t := FileIsRendered(tail);
      m := t.(before := [b] + t.before);
      assert MoovBox(m) == MoovBox(t);
      PrependBox(b, t.before, Encode(MoovBox(t)), t.rest);
    }
  }

  /** The reader returns `ms` for exactly the files that render a movie lasting `ms`. */
  lemma ReaderAcceptsExactlyMovies(s: seq<Byte>, ms: nat)
    requires |s| <= USIZE_MAX
    ensures ParseFile(s) == Some(ms) <==>
            exists m: Movie ::
              ValidMovie(m) && Render(m) == s && m.header.timescale != 0 && DurationMs(m.header) == ms
  {
    hide ParseFile, Render, ValidMovie, DurationMs;
    if ParseFile(s) == Some(ms) {
      var m := FileIsRendered(s);
      RenderedMovieReads(m);
      assert ValidMovie(m) && Render(m) == s;
    }
    forall m: Movie | ValidMovie(m) && Render(m) == s && m.header.timescale != 0 && DurationMs(m.header) == ms
      ensures ParseFile(s) == Some(ms)
    {
      RenderedMovieReads(m);
    }
  }

  // ---------------------------------------------------------------------------
  // The seeking scanner.

  lemma {:induction false} FirstMoovBehind(bs: seq<Box>, tail: seq<Byte>)
    requires Skippable(bs, MOOV) && |EncodeAll(bs) + tail| <= USIZE_MAX
    ensures FirstMoovSize(EncodeAll(bs) + tail) == FirstMoovSize(tail)
  {
    hide ReadBox, Encode;
    if bs == [] {
      assert EncodeAll(bs) + tail == tail;
    } else {
      var rest := EncodeAll(bs[1..]) + tail;
      assert EncodeAll(bs) + tail == Encode(bs[0]) + rest;
      EncodedBoxReads(bs[0], rest);
      FirstMoovBehind(bs[1..], tail);
    }
  }

  /** The scanner reads a movie's duration exactly when its movie box, with its header, is at most 1 MiB. */
  lemma ScannerReadsMoviesExactlyWhen(m: Movie)
    requires ValidMovie(m) && |Render(m)| <= USIZE_MAX && m.header.timescale != 0
    ensures FirstMoovSize(Render(m)) == Some(|Encode(MoovBox(m))|)
    ensures FileDuration(Render(m)) ==
            if |Encode(MoovBox(m))| <= MAX_HEADER_BYTES then Some(DurationMs(m.header)) else None
  {
    hide ReadBox, Encode, EncodeAll, HeaderPayload, ParseFile;
    var moov := MoovBox(m);
    RenderedMovieReads(m);
    assert Render(m) == EncodeAll(m.before) + (Encode(moov) + m.rest);
    FirstMoovBehind(m.before, Encode(moov) + m.rest);
    EncodedBoxReads(moov, m.rest);
    EncodedSize(moov);
  }

  const FREE: seq<Byte> := [0x66, 0x72, 0x65, 0x65]

  /** A one-second movie with `n` bytes of free space in its movie box. */
  function PaddedMovie(n: nat): Movie {
    var padding := Box(FREE, Short, seq(n, _ => 0));
    var header := V0([0, 0, 0], [0, 0, 0, 0, 0, 0, 0, 0], 1_000, 1_000, []);
    Movie([], Short, [padding], Short, header, [], [])
  }

  /** A movie of one second whose duration the parser reads and the scanner does not. */
  lemma LargeMovieBoxIsRefused()
    ensures var s := Render(PaddedMovie(MAX_HEADER_BYTES));
            |s| <= USIZE_MAX && ParseFile(s) == Some(1_000) && FileDuration(s) == None
  {
    var m := PaddedMovie(MAX_HEADER_BYTES);
    PaddedMovieIsValid(MAX_HEADER_BYTES);
    RenderedMovieReads(m);
    ScannerReadsMoviesExactlyWhen(m);
  }

  lemma PaddedMovieIsValid(n: nat)
    requires n <= MAX_HEADER_BYTES
    ensures var m := PaddedMovie(n);
            && ValidMovie(m) && |Render(m)| <= USIZE_MAX && DurationMs(m.header) == 1_000
            && |Encode(MoovBox(m))| > n
  {
    var m := PaddedMovie(n);
    var header := HeaderBox(m);
    hide Encode, ToBe;
    EncodedSize(m.children[0]);
    EncodedSize(header);
    assert m.children[1..] == [];
    assert EncodeAll(m.children) == Encode(m.children[0]) + [];
    assert |header.payload| == 20;
    EncodedSize(MoovBox(m));
  }

  function Code(c: char, s: string): Byte
    requires c in s && forall d | d in s :: d as int < 128
  {
    c as nat
  }

  /** The characters of a four-letter code as bytes. */
  function Ascii(s: string): seq<Byte>
    requires forall c | c in s :: c as int < 128
  {
    seq(|s|, i requires 0 <= i < |s| => Code(s[i], s))
  }

  /** A file as a muxer writes it, byte by byte: a type box, and a movie of two and a half seconds. */
  lemma ShortestMovieReads()
    ensures ParseFile(
              ([0, 0, 0, 12] + Ascii("ftyp") + Ascii("isom"))
              + ([0, 0, 0, 36] + Ascii("moov")
                 + ([0, 0, 0, 28] + Ascii("mvhd")
                    + [0, 0, 0, 0, 0, 0, 0, 0, 0, 0, 0, 0, 0, 0, 0x03, 0xE8, 0, 0, 0x09, 0xC4]))) == Some(2_500)
  {
    var ftyp := Box(Ascii("ftyp"), Short, Ascii("isom"));
    var header := V0([0, 0, 0], [0, 0, 0, 0, 0, 0, 0, 0], 1_000, 2_500, []);
    var m := Movie([ftyp], Short, [], Short, header, [], []);
    CodesAreBytes();
    NumbersAreBytes();
    ShortMovieBytes(m, ftyp, header);
    RenderedMovieReads(m);
  }

  lemma ShortMovieBytes(m: Movie, ftyp: Box, header: MovieHeader)
    requires Ascii("moov") == MOOV && Ascii("mvhd") == MVHD && Ascii("ftyp") == [0x66, 0x74, 0x79, 0x70]
    requires |Ascii("isom")| == 4
    requires ToBe(12, 4) == [0, 0, 0, 12] && ToBe(36, 4) == [0, 0, 0, 36] && ToBe(28, 4) == [0, 0, 0, 28]
    requires ToBe(1_000, 4) == [0, 0, 0x03, 0xE8] && ToBe(2_500, 4) == [0, 0, 0x09, 0xC4]
    requires ftyp == Box(Ascii("ftyp"), Short, Ascii("isom"))
    requires header == V0([0, 0, 0], [0, 0, 0, 0, 0, 0, 0, 0], 1_000, 2_500, [])
    requires m == Movie([ftyp], Short, [], Short, header, [], [])
    ensures ValidMovie(m) && DurationMs(m.header) == 2_500
    ensures Render(m) ==
              ([0, 0, 0, 12] + Ascii("ftyp") + Ascii("isom"))
              + ([0, 0, 0, 36] + Ascii("moov")
                 + ([0, 0, 0, 28] + Ascii("mvhd")
                    + [0, 0, 0, 0, 0, 0, 0, 0, 0, 0, 0, 0, 0, 0, 0x03, 0xE8, 0, 0, 0x09, 0xC4]))
  {
    hide ToBe, Ascii;
    var payload: seq<Byte> := [0, 0, 0, 0, 0, 0, 0, 0, 0, 0, 0, 0, 0, 0, 0x03, 0xE8, 0, 0, 0x09, 0xC4];
    assert HeaderPayload(header) == payload;
    hide HeaderPayload, ValidMovie, EncodeAll;
    ShortMovieIsValid(m, ftyp, header);
    ShortBoxBytes(ftyp, 12);
    ShortBoxBytes(HeaderBox(m), 28);
    assert EncodeAll([]) == [] && EncodeAll([ftyp]) == Encode(ftyp) by { OneBoxBytes(ftyp); }
    hide Encode;
    assert MoovBox(m).payload == Encode(HeaderBox(m));
    ShortBoxBytes(MoovBox(m), 36);
    assert Render(m) == Encode(ftyp) + Encode(MoovBox(m));
  }

  lemma ShortMovieIsValid(m: Movie, ftyp: Box, header: MovieHeader)
    requires ftyp.kind == [0x66, 0x74, 0x79, 0x70] && ftyp.form.Short? && |ftyp.payload| == 4
    requires header == V0([0, 0, 0], [0, 0, 0, 0, 0, 0, 0, 0], 1_000, 2_500, [])
    requires m == Movie([ftyp], Short, [], Short, header, [], [])
    ensures ValidMovie(m)
  {
    hide Encode;
    EncodedSize(HeaderBox(m));
    assert EncodeAll(m.children) == [];
    assert m.before[0] == ftyp;
  }

  lemma ShortBoxBytes(b: Box, size: nat)
    requires b.form.Short? && |b.kind| == 4 && size == |b.payload| + 8
    ensures Encode(b) == ToBe(size, 4) + b.kind + b.payload && |Encode(b)| == size
  {
  }

  lemma OneBoxBytes(b: Box)
    ensures EncodeAll([]) == [] && EncodeAll([b]) == Encode(b)
  {
    assert [b][1..] == [];
    assert Encode(b) + [] == Encode(b);
  }

  lemma CodesAreBytes()
    ensures Ascii("moov") == MOOV && Ascii("mvhd") == MVHD && Ascii("ftyp") == [0x66, 0x74, 0x79, 0x70]
    ensures |Ascii("isom")| == 4
  {
  }

  lemma NumbersAreBytes()
    ensures ToBe(12, 4) == [0, 0, 0, 12] && ToBe(36, 4) == [0, 0, 0, 36] && ToBe(28, 4) == [0, 0, 0, 28]
    ensures ToBe(1_000, 4) == [0, 0, 0x03, 0xE8] && ToBe(2_500, 4) == [0, 0, 0x09, 0xC4]
  {
  }
}
