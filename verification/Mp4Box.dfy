/** Big-endian integers over byte sequences. */
module Bytes {

  type Byte = b: nat | b < 256

  /** 256 to the power `n`. */
  function Pow256(n: nat): (p: nat)
    ensures p > 0
  {
    if n == 0 then 1 else 256 * Pow256(n - 1)
  }

  lemma Widths()
    ensures Pow256(4) == 0x1_0000_0000
    ensures Pow256(8) == 0x1_0000_0000_0000_0000
  {
    assert Pow256(2) == 0x1_0000;
    assert Pow256(3) == 0x100_0000;
    assert Pow256(4) == 0x1_0000_0000;
    assert Pow256(5) == 0x100_0000_0000;
    assert Pow256(6) == 0x1_0000_0000_0000;
    assert Pow256(7) == 0x100_0000_0000_0000;
  }

  function FromBe(s: seq<Byte>): (v: nat)
    ensures v < Pow256(|s|)
  {
    if |s| == 0 then 0 else FromBe(s[..|s| - 1]) * 256 + s[|s| - 1]
  }

  function ToBe(v: nat, width: nat): (s: seq<Byte>)
    ensures |s| == width
  {
    if width == 0 then [] else ToBe(v / 256, width - 1) + [v % 256]
  }

  /** A number is its high bytes and its last byte. */
  lemma Halves(v: nat, p: nat)
    requires v < 256 * p
    ensures v / 256 < p && v == v / 256 * 256 + v % 256
  {
  }

  lemma {:induction false} DecodeEncode(v: nat, width: nat)
    requires v < Pow256(width)
    ensures FromBe(ToBe(v, width)) == v
  {
    if width != 0 {
      Halves(v, Pow256(width - 1));
      hide FromBe, Pow256;
      DecodeEncode(v / 256, width - 1);
      FromBeAppend(ToBe(v / 256, width - 1), v % 256);
    }
  }

  lemma FromBeAppend(high: seq<Byte>, low: Byte)
    ensures FromBe(high + [low]) == FromBe(high) * 256 + low
  {
    assert (high + [low])[..|high|] == high;
  }

  lemma {:induction false} EncodeDecode(s: seq<Byte>)
    ensures ToBe(FromBe(s), |s|) == s
  {
    if |s| != 0 {
      EncodeDecode(s[..|s| - 1]);
      assert FromBe(s) / 256 == FromBe(s[..|s| - 1]);
      assert FromBe(s) % 256 == s[|s| - 1];
      assert s == s[..|s| - 1] + [s[|s| - 1]];
    }
  }
}

/**
 * The MP4 duration reader: an in-memory parser and a seeking file scanner over the box
 * layout of section 4.2 (object structure) and section 8.2.2 (movie header box) of
 * ISO/IEC 14496-12.
 */
module Mp4Box {
  import opened Common
  import opened Bytes

  const USIZE_MAX: nat := U64_MAX
  const MAX_HEADER_BYTES: nat := 1024 * 1024

  // The four-byte box types the reader looks for, as ASCII codes.
  const MOOV: seq<Byte> := [0x6D, 0x6F, 0x6F, 0x76]
  const MVHD: seq<Byte> := [0x6D, 0x76, 0x68, 0x64]

  datatype BoxHeader = BoxHeader(boxType: seq<Byte>, payloadStart: nat, payloadEnd: nat, nextOffset: nat)

  /**
   * Read one box header at `offset`, where the enclosing container ends at `limit`.
   * `checked_add` is written out: an offset past the machine word gives `None`.
   */
  function ReadBox(data: seq<Byte>, offset: nat, limit: nat): (r: Option<BoxHeader>)
    requires limit <= |data|
    ensures r.Some? ==>
              && offset + 8 <= r.value.payloadStart <= r.value.payloadEnd
              && r.value.payloadEnd == r.value.nextOffset <= limit
              && r.value.boxType == data[offset + 4..offset + 8]
  {
    if offset + 8 > USIZE_MAX || offset + 8 > limit then None else
    var rawSize := FromBe(data[offset..offset + 4]);
    var boxType := data[offset + 4..offset + 8];
    if rawSize == 0 then
      Some(BoxHeader(boxType, offset + 8, limit, limit))
    else if rawSize == 1 then
      if offset + 16 > USIZE_MAX || offset + 16 > limit then None else
      var largeSize := FromBe(data[offset + 8..offset + 16]);
      if largeSize < 16 || offset + largeSize > USIZE_MAX || offset + largeSize > limit then None
      else Some(BoxHeader(boxType, offset + 16, offset + largeSize, offset + largeSize))
    else if rawSize <= 7 then None
    else if offset + rawSize > USIZE_MAX || offset + rawSize > limit then None
    else Some(BoxHeader(boxType, offset + 8, offset + rawSize, offset + rawSize))
  }

  /** The movie duration in milliseconds, from the payload of a movie header box. */
  function ParseMvhd(payload: seq<Byte>): Option<nat> {
    if |payload| < 4 then None
    else if payload[0] == 0 then
      if |payload| < 20 then None
      else Milliseconds(FromBe(payload[12..16]), FromBe(payload[16..20]))
    else if payload[0] == 1 then
      if |payload| < 32 then None
      else Milliseconds(FromBe(payload[20..24]), FromBe(payload[24..32]))
    else None
  }

  function Milliseconds(timescale: nat, duration: nat): Option<nat> {
    if timescale == 0 then None
    else Some(Min(Min(duration * 1_000, U128_MAX) / timescale, U64_MAX))
  }

  // ---------------------------------------------------------------------------
  // What the reader means: it consumes one box after another from the front.

  /** The duration found among the children of a movie box whose payload is `s`. */
  function ParseMoov(s: seq<Byte>): Option<nat>
    decreases |s|
  {
    if |s| == 0 then None else
    match ReadBox(s, 0, |s|)
    case None => None
    case Some(h) =>
      if h.boxType == MVHD then ParseMvhd(s[h.payloadStart..h.payloadEnd])
      else ParseMoov(s[h.nextOffset..])
  }

  /** The duration found in a file whose content is `s`. */
  function ParseFile(s: seq<Byte>): Option<nat>
    decreases |s|
  {
    if |s| == 0 then None else
    match ReadBox(s, 0, |s|)
    case None => None
    case Some(h) =>
      if h.boxType == MOOV then ParseMoov(s[h.payloadStart..h.payloadEnd])
      else ParseFile(s[h.nextOffset..])
  }

  /** Length of the first movie box the walk reaches, header included. */
  function FirstMoovSize(s: seq<Byte>): Option<nat>
    decreases |s|
  {
    if |s| == 0 then None else
    match ReadBox(s, 0, |s|)
    case None => None
    case Some(h) =>
      if h.boxType == MOOV then Some(h.nextOffset) else FirstMoovSize(s[h.nextOffset..])
  }

  /** Reading at an offset sees exactly the slice up to the limit, shifted by the offset. */
  lemma ReadBoxTranslates(data: seq<Byte>, offset: nat, limit: nat)
    requires offset <= limit <= |data| <= USIZE_MAX
    ensures ReadBox(data, offset, limit).Some? <==> ReadBox(data[offset..limit], 0, limit - offset).Some?
    ensures ReadBox(data, offset, limit).Some? ==>
              var h := ReadBox(data, offset, limit).value;
              var g := ReadBox(data[offset..limit], 0, limit - offset).value;
              h == BoxHeader(g.boxType, offset + g.payloadStart, offset + g.payloadEnd, offset + g.nextOffset)
  {
    var view := data[offset..limit];
    if offset + 8 <= limit {
      SliceOfSlice(data, offset, limit, 0, 4);
      SliceOfSlice(data, offset, limit, 4, 8);
      if offset + 16 <= limit {
        SliceOfSlice(data, offset, limit, 8, 16);
      }
    }
  }

  /** One step of the top-level walk, at an offset. */
  lemma FileStep(data: seq<Byte>, offset: nat, limit: nat)
    requires offset < limit <= |data| <= USIZE_MAX
    ensures match ReadBox(data, offset, limit)
            case None => ParseFile(data[offset..limit]).None?
            case Some(h) =>
              ParseFile(data[offset..limit]) ==
              if h.boxType == MOOV then ParseMoov(data[h.payloadStart..h.payloadEnd])
              else ParseFile(data[h.nextOffset..limit])
  {
    hide ReadBox;
    ReadBoxTranslates(data, offset, limit);
    if ReadBox(data, offset, limit).Some? {
      SliceStep(data, offset, limit, ReadBox(data, offset, limit).value);
    }
  }

  lemma SliceStep(data: seq<Byte>, offset: nat, limit: nat, h: BoxHeader)
    requires offset + 8 <= h.payloadStart <= h.payloadEnd == h.nextOffset <= limit <= |data|
    ensures var view := data[offset..limit];
            && view[h.payloadStart - offset..h.payloadEnd - offset] == data[h.payloadStart..h.payloadEnd]
            && view[h.nextOffset - offset..] == data[h.nextOffset..limit]
  {
    var view := data[offset..limit];
    SliceOfSlice(data, offset, limit, h.payloadStart - offset, h.payloadEnd - offset);
    SliceOfSlice(data, offset, limit, h.nextOffset - offset, limit - offset);
    assert view[h.nextOffset - offset..] == view[h.nextOffset - offset..limit - offset];
  }

  /** One step of the walk over a movie box's children, at an offset. */
  lemma MoovStep(data: seq<Byte>, offset: nat, limit: nat)
    requires offset < limit <= |data| <= USIZE_MAX
    ensures match ReadBox(data, offset, limit)
            case None => ParseMoov(data[offset..limit]).None?
            case Some(h) =>
              ParseMoov(data[offset..limit]) ==
              if h.boxType == MVHD then ParseMvhd(data[h.payloadStart..h.payloadEnd])
              else ParseMoov(data[h.nextOffset..limit])
  {
    hide ReadBox;
    ReadBoxTranslates(data, offset, limit);
    if ReadBox(data, offset, limit).Some? {
      SliceStep(data, offset, limit, ReadBox(data, offset, limit).value);
    }
  }

  // ---------------------------------------------------------------------------
  // The in-memory parser.

  method ParseMp4Duration(data: seq<Byte>) returns (r: Option<nat>)
    requires |data| <= USIZE_MAX
    ensures r == ParseFile(data)
  {
    var cursor := 0;
    var limit := |data|;
    assert data[0..limit] == data;
    while cursor < limit
      invariant cursor <= limit == |data|
      invariant ParseFile(data) == ParseFile(data[cursor..limit])
    {
      FileStep(data, cursor, limit);
      var read := ReadBox(data, cursor, limit);
      if read.None? { return None; }
      var header := read.value;
      if header.boxType == MOOV {
        var moovCursor := header.payloadStart;
        var moovLimit := header.payloadEnd;
        while moovCursor < moovLimit
          invariant moovCursor <= moovLimit <= |data|
          invariant ParseFile(data) == ParseMoov(data[moovCursor..moovLimit])
        {
          MoovStep(data, moovCursor, moovLimit);
          var childRead := ReadBox(data, moovCursor, moovLimit);
          if childRead.None? { return None; }
          var child := childRead.value;
          if child.boxType == MVHD {
            return ParseMvhd(data[child.payloadStart..child.payloadEnd]);
          }
          moovCursor := child.nextOffset;
        }
        return None;
      }
      cursor := header.nextOffset;
    }
    return None;
  }

  // ---------------------------------------------------------------------------
  // The seeking scanner.

  /** A file opened for reading: fixed content and a read position. */
  class File {
    const content: seq<Byte>
    var position: nat

    constructor (content: seq<Byte>)
      ensures this.content == content && position == 0
    {
      this.content := content;
      position := 0;
    }

    method Seek(target: nat)
      modifies this
      ensures position == target
    {
      position := target;
    }

    /** Fill a buffer of `n` bytes, or fail when the file is too short. */
    method ReadExact(n: nat) returns (r: Option<seq<Byte>>)
      modifies this
      ensures r.Some? <==> old(position) + n <= |content|
      ensures r.Some? ==> r.value == content[old(position)..old(position) + n] && position == old(position) + n
    {
      if position + n > |content| { return None; }
      r := Some(content[position..position + n]);
      position := position + n;
    }
  }

  /** What the scanner returns for a file: the parse, unless its first movie box is too large to load. */
  function FileDuration(s: seq<Byte>): Option<nat> {
    if FirstMoovSize(s).Some? && FirstMoovSize(s).value > MAX_HEADER_BYTES then None else ParseFile(s)
  }

  method DurationFromFile(hasMp4Extension: bool, file: File) returns (r: Option<nat>)
    requires |file.content| <= U64_MAX
    modifies file
    ensures r == if hasMp4Extension then FileDuration(file.content) else None
  {
    hide ReadBox, FromBe, ParseFile, ParseMoov, FileDuration;
    if !hasMp4Extension { return None; }
    var fileLen := |file.content|;
    ghost var all := file.content;
    var pos := 0;
    assert all[0..] == all;
    while pos < fileLen
      invariant pos <= fileLen == |all| && all == file.content
      invariant FileDuration(all) == FileDuration(all[pos..])
    {
      ScanStep(all, pos);
      var header := ReadHeader(file, pos, fileLen);
      if header.None? { return None; }
      var (boxType, boxSize) := header.value;
      var nextPos := pos + boxSize;
      if boxType == MOOV {
        if boxSize > MAX_HEADER_BYTES { return None; }
        file.Seek(pos);
        var moovBytes := file.ReadExact(boxSize);
        if moovBytes.None? { return None; }
        r := ParseMp4Duration(moovBytes.value);
        return;
      }
      pos := nextPos;
    }
    ScanEnd(all[pos..]);
    return None;
  }

  lemma ScanEnd(s: seq<Byte>)
    requires s == []
    ensures FileDuration(s).None?
  {
  }

  /** The scanner's own header reader: the box type and the whole box size at `pos`. */
  method ReadHeader(file: File, pos: nat, fileLen: nat) returns (r: Option<(seq<Byte>, nat)>)
    requires pos < fileLen == |file.content| <= U64_MAX
    modifies file
    ensures r.Some? <==> ReadBox(file.content, pos, fileLen).Some?
    ensures r.Some? ==> r.value.0 == ReadBox(file.content, pos, fileLen).value.boxType
    ensures r.Some? ==> pos + r.value.1 == ReadBox(file.content, pos, fileLen).value.nextOffset
  {
    var remaining := fileLen - pos;
    if remaining < 8 { return None; }
    file.Seek(pos);
    var header := file.ReadExact(8);
    if header.None? { return None; }
    SliceOfSlice(file.content, pos, pos + 8, 0, 4);
    SliceOfSlice(file.content, pos, pos + 8, 4, 8);
    var rawSize := FromBe(header.value[0..4]);
    var boxType := header.value[4..8];

    var boxSize := rawSize;
    if rawSize == 0 {
      boxSize := remaining;
    } else if rawSize == 1 {
      if remaining < 16 { return None; }
      var ext := file.ReadExact(8);
      if ext.None? { return None; }
      boxSize := FromBe(ext.value);
      if boxSize < 16 { return None; }
    } else if rawSize <= 7 {
      return None;
    }
    if boxSize > remaining || pos + boxSize > U64_MAX { return None; }
    return Some((boxType, boxSize));
  }

  /** One step of the scan: a movie box decides, any other box is skipped. */
  lemma ScanStep(data: seq<Byte>, pos: nat)
    requires pos < |data| <= U64_MAX
    ensures match ReadBox(data, pos, |data|)
            case None => FileDuration(data[pos..]).None?
            case Some(h) =>
              FileDuration(data[pos..]) ==
              if h.boxType != MOOV then FileDuration(data[h.nextOffset..])
              else if h.nextOffset - pos > MAX_HEADER_BYTES then None
              else ParseFile(data[pos..h.nextOffset])
  {
    hide ReadBox, ParseMoov;
    var rest := data[pos..];
    assert rest == data[pos..|data|];
    ReadBoxTranslates(data, pos, |data|);
    if ReadBox(rest, 0, |rest|).Some? {
      var h := ReadBox(data, pos, |data|).value;
      if h.boxType == MOOV {
        MoovAlone(rest);
        SliceOfSlice(data, pos, |data|, 0, h.nextOffset - pos);
      } else {
        SliceStep(data, pos, |data|, h);
        assert data[h.nextOffset..|data|] == data[h.nextOffset..];
      }
    }
  }

  /** A box header reads the same when everything behind its box is cut off. */
  lemma ReadBoxAlone(s: seq<Byte>)
    requires ReadBox(s, 0, |s|).Some?
    ensures var h := ReadBox(s, 0, |s|).value;
            ReadBox(s[..h.nextOffset], 0, h.nextOffset) == Some(h)
  {
    var h := ReadBox(s, 0, |s|).value;
    assert s[0..h.nextOffset] == s[..h.nextOffset];
    SliceOfSlice(s, 0, h.nextOffset, 0, 4);
    SliceOfSlice(s, 0, h.nextOffset, 4, 8);
    if h.payloadStart == 16 {
      SliceOfSlice(s, 0, h.nextOffset, 8, 16);
    }
  }

  lemma FileAtMoov(s: seq<Byte>, h: BoxHeader)
    requires |s| > 0 && ReadBox(s, 0, |s|) == Some(h) && h.boxType == MOOV
    ensures ParseFile(s) == ParseMoov(s[h.payloadStart..h.payloadEnd])
  {
    hide ReadBox, ParseMoov;
  }

  /** A movie box cut out of its file parses as the file does. */
  lemma MoovAlone(s: seq<Byte>)
    requires |s| > 0 && ReadBox(s, 0, |s|).Some? && ReadBox(s, 0, |s|).value.boxType == MOOV
    ensures ParseFile(s[..ReadBox(s, 0, |s|).value.nextOffset]) == ParseFile(s)
  {
    hide ReadBox, ParseMoov, ParseFile;
    var h := ReadBox(s, 0, |s|).value;
    var cut := s[..h.nextOffset];
    ReadBoxAlone(s);
    FileAtMoov(s, h);
    FileAtMoov(cut, h);
    assert cut[h.payloadStart..h.payloadEnd] == s[h.payloadStart..h.payloadEnd] by {
      assert cut == s[0..h.nextOffset];
      SliceOfSlice(s, 0, h.nextOffset, h.payloadStart, h.payloadEnd);
    }
  }

  /** The scanner and the in-memory parser disagree exactly when an oversized movie box holds a duration. */
  lemma {:induction false} ScannerAgreesWithParser(s: seq<Byte>)
    ensures FileDuration(s) == ParseFile(s) <==>
            !(FirstMoovSize(s).Some? && FirstMoovSize(s).value > MAX_HEADER_BYTES && ParseFile(s).Some?)
    ensures FirstMoovSize(s).None? ==> ParseFile(s).None?
  {
    ParsedFileHasMoov(s);
  }

  lemma {:induction false} ParsedFileHasMoov(s: seq<Byte>)
    ensures FirstMoovSize(s).None? ==> ParseFile(s).None?
    decreases |s|
  {
    if |s| != 0 && ReadBox(s, 0, |s|).Some? {
      ParsedFileHasMoov(s[ReadBox(s, 0, |s|).value.nextOffset..]);
    }
  }
}
