/** The multipart/form-data encoding and a decoder that follows section 5.1.1 of RFC 2046. */
module MultipartFormat {
  import opened Collections

  newtype byte = x: int | 0 <= x < 256

  /** Texts stand for their UTF-8 encodings. */
  type Bytes = seq<byte>

  datatype Header = Header(name: Bytes, value: Bytes)

  datatype Part = Part(headers: seq<Header>, body: Bytes)

  const CR: byte := 13
  const CRLF: Bytes := [CR, 10]
  const DASHES: Bytes := [45, 45]
  const COLON: Bytes := [58, 32]

  // ---------- Search ----------

  predicate IsAt(pattern: Bytes, data: Bytes, i: nat) {
    i + |pattern| <= |data| && data[i..i + |pattern|] == pattern
  }

  ghost predicate Contains(data: Bytes, pattern: Bytes) {
    exists i: nat :: IsAt(pattern, data, i)
  }

  /** The first place of the pattern */
  function Find(pattern: Bytes, data: Bytes): (place: Option<nat>)
    ensures place.Some? ==> IsAt(pattern, data, place.value) && forall j: nat | j < place.value :: !IsAt(pattern, data, j)
    ensures place.None? ==> !Contains(data, pattern)
  {
    if |data| < |pattern| then None
    else if data[..|pattern|] == pattern then Some(0)
    else
      var later := Find(pattern, data[1..]);
      assert forall j: nat | j > 0 :: IsAt(pattern, data, j) <==> IsAt(pattern, data[1..], j - 1) by {
        forall j: nat | j > 0 ensures IsAt(pattern, data, j) <==> IsAt(pattern, data[1..], j - 1) {
          if j + |pattern| <= |data| {
            assert data[1..][j - 1..j - 1 + |pattern|] == data[j..j + |pattern|];
          }
        }
      }
      match later
      case None => None
      case Some(i) => Some(i + 1)
  }

  lemma CannotOverlap(pattern: Bytes, data: Bytes, j: nat, i: nat)
    requires pattern != [] && pattern[0] !in pattern[1..] && IsAt(pattern, data, i) && j < i < j + |pattern|
    ensures !IsAt(pattern, data, j)
  {
    assert pattern[1..][i - j - 1] == pattern[i - j] != pattern[0];
    if j + |pattern| <= |data| {
      assert data[j..j + |pattern|][i - j] == data[i] == data[i..i + |pattern|][0];
    }
  }

  /** A pattern whose first byte does not recur in it cannot overlap a place where it stands, so
      the search stops there exactly if what comes before does not contain it. */
  lemma FindsWhereItStands(pattern: Bytes, before: Bytes, after: Bytes)
    requires pattern != [] && pattern[0] !in pattern[1..]
    ensures var place := Find(pattern, before + pattern + after);
      && place.Some? && place.value <= |before|
      && (place.value == |before| <==> !Contains(before, pattern))
  {
    var data := before + pattern + after;
    assert IsAt(pattern, data, |before|);
    forall j: nat | j < |before| ensures IsAt(pattern, data, j) <==> IsAt(pattern, before, j) {
      if j + |pattern| <= |before| {
        assert data[j..j + |pattern|] == before[j..j + |pattern|];
      } else {
        CannotOverlap(pattern, data, j, |before|);
      }
    }
  }

  // ---------- The encoding ----------

  datatype BoundaryType = Initial | Encapsulated | Final

  function BoundaryData(boundaryType: BoundaryType, boundary: Bytes): Bytes {
    match boundaryType
    case Initial => DASHES + boundary + CRLF
    case Encapsulated => CRLF + DASHES + boundary + CRLF
    case Final => CRLF + DASHES + boundary + DASHES + CRLF
  }

  function HeaderText(header: Header): Bytes {
    header.name + COLON + header.value
  }

  function HeaderLines(headers: seq<Header>): Bytes {
    if headers == [] then [] else HeaderText(headers[0]) + CRLF + HeaderLines(headers[1..])
  }

  function EncodedHeaders(headers: seq<Header>): Bytes {
    HeaderLines(headers) + CRLF
  }

  /** A part with its boundary flags */
  datatype Flagged = Flagged(part: Part, initial: bool, final: bool)

  function EncodedPart(boundary: Bytes, f: Flagged): Bytes {
    BoundaryData(if f.initial then Initial else Encapsulated, boundary)
    + EncodedHeaders(f.part.headers)
    + f.part.body
    + (if f.final then BoundaryData(Final, boundary) else [])
  }

  function EncodedParts(boundary: Bytes, fs: seq<Flagged>): Bytes {
    if fs == [] then [] else EncodedParts(boundary, fs[..|fs| - 1]) + EncodedPart(boundary, fs[|fs| - 1])
  }

  function Parts(fs: seq<Flagged>): (parts: seq<Part>)
    ensures |parts| == |fs| && forall i | 0 <= i < |fs| :: parts[i] == fs[i].part
  {
    if fs == [] then [] else [fs[0].part] + Parts(fs[1..])
  }

  /** The bytes of a form with one part and one header, as section 5.1.1 of RFC 2046 prescribes them. */
  lemma OnePartBytes(boundary: Bytes, name: Bytes, value: Bytes, body: Bytes)
    ensures EncodedParts(boundary, [Flagged(Part([Header(name, value)], body), true, true)]) ==
      ([45, 45] + boundary + [13, 10])
      + (name + [58, 32] + value + [13, 10] + [13, 10])
      + body
      + ([13, 10] + [45, 45] + boundary + [45, 45] + [13, 10])
  {
    var h := Header(name, value);
    var f := Flagged(Part([h], body), true, true);
    OneHeader(h);
    hide EncodedHeaders;
    assert [f][..0] == [];
    assert EncodedParts(boundary, [f]) == [] + EncodedPart(boundary, f);
  }

  lemma OneHeader(h: Header)
    ensures EncodedHeaders([h]) == h.name + COLON + h.value + CRLF + CRLF
  {
    FirstEncoded([h]);
    assert [h][1..] == [];
    assert EncodedHeaders([]) == CRLF;
  }

  // ---------- The decoder ----------

  function Delimiter(boundary: Bytes): Bytes {
    CRLF + DASHES + boundary
  }

  function DecodeHeader(line: Bytes): Option<Header> {
    match Find(COLON, line)
    case None => None
    case Some(i) => Some(Header(line[..i], line[i + 2..]))
  }

  /** Header lines up to an empty line, and what follows it */
  function DecodeHeaders(data: Bytes): (result: Option<(seq<Header>, Bytes)>)
    ensures result.Some? ==> |result.value.1| < |data|
  {
    match Find(CRLF, data)
    case None => None
    case Some(i) =>
      if i == 0 then Some(([], data[2..])) else
      match DecodeHeader(data[..i])
      case None => None
      case Some(header) =>
        match DecodeHeaders(data[i + 2..])
        case None => None
        case Some((headers, rest)) => Some(([header] + headers, rest))
  }

  /** Parts up to the closing delimiter; what follows it is the epilogue, which is ignored. */
  function DecodeParts(boundary: Bytes, data: Bytes): Option<seq<Part>>
    decreases |data|
  {
    match DecodeHeaders(data)
    case None => None
    case Some((headers, rest)) =>
      match Find(Delimiter(boundary), rest)
      case None => None
      case Some(i) =>
        var part, after := Part(headers, rest[..i]), rest[i + |Delimiter(boundary)|..];
        if DASHES <= after then Some([part])
        else if CRLF <= after then
          match DecodeParts(boundary, after[2..])
          case None => None
          case Some(parts) => Some([part] + parts)
        else None
  }

  function Decode(boundary: Bytes, data: Bytes): Option<seq<Part>> {
    var first := DASHES + boundary + CRLF;
    if first <= data then DecodeParts(boundary, data[|first|..]) else None
  }

  // ---------- Unique decoding ----------

  ghost predicate HeaderIsPlain(header: Header) {
    !Contains(HeaderText(header), CRLF) && !Contains(header.name, COLON)
  }

  ghost predicate HeadersArePlain(headers: seq<Header>) {
    forall i | 0 <= i < |headers| :: HeaderIsPlain(headers[i])
  }

  ghost predicate PartIsPlain(boundary: Bytes, part: Part) {
    HeadersArePlain(part.headers) && !Contains(part.body, Delimiter(boundary))
  }

  lemma HeaderDecodes(header: Header)
    ensures DecodeHeader(HeaderText(header)) == Some(header) <==> !Contains(header.name, COLON)
  {
    FindsWhereItStands(COLON, header.name, header.value);
    var text, place := HeaderText(header), Find(COLON, HeaderText(header)).value;
    assert text[|header.name| + 2..] == header.value;
    assert text[..|header.name|] == header.name;
  }

  lemma DecodedHeaderIsAsLong(line: Bytes)
    ensures DecodeHeader(line).Some? ==> |HeaderText(DecodeHeader(line).value)| == |line|
  {
  }

  lemma FirstLine(header: Header, rest: Bytes)
    ensures var data := HeaderText(header) + CRLF + rest;
      && (HeaderIsPlain(header) ==>
            DecodeHeaders(data) == match DecodeHeaders(rest)
              case None => None
              case Some((headers, rest')) => Some(([header] + headers, rest')))
      && (!HeaderIsPlain(header) && DecodeHeaders(data).Some? ==>
            var headers := DecodeHeaders(data).value.0;
            headers == [] || headers[0] != header)
  {
    var text := HeaderText(header);
    var data := text + CRLF + rest;
    FindsWhereItStands(CRLF, text, rest);
    var i := Find(CRLF, data).value;
    if i == |text| {
      assert data[..i] == text && data[i + 2..] == rest;
      HeaderDecodes(header);
    } else {
      DecodedHeaderIsAsLong(data[..i]);
    }
  }

  lemma FirstEncoded(headers: seq<Header>)
    requires headers != []
    ensures EncodedHeaders(headers) == HeaderText(headers[0]) + CRLF + EncodedHeaders(headers[1..])
  {
    Associate(HeaderText(headers[0]) + CRLF, HeaderLines(headers[1..]), CRLF);
  }

  lemma HeadersPlainFirst(headers: seq<Header>)
    requires headers != []
    ensures HeadersArePlain(headers) <==> HeaderIsPlain(headers[0]) && HeadersArePlain(headers[1..])
  {
    hide HeaderIsPlain;
    assert forall i | 1 <= i < |headers| :: headers[i] == headers[1..][i - 1];
  }

  lemma NoHeadersDecode(rest: Bytes)
    ensures DecodeHeaders(EncodedHeaders([]) + rest) == Some(([], rest))
  {
    var data := EncodedHeaders([]) + rest;
    assert data == [] + CRLF + rest && data[2..] == rest;
    FindsWhereItStands(CRLF, [], rest);
  }

  lemma {:induction false} HeadersDecode(headers: seq<Header>, rest: Bytes)
    ensures var result := DecodeHeaders(EncodedHeaders(headers) + rest);
      if HeadersArePlain(headers) then result == Some((headers, rest))
      else result.Some? ==> result.value.0 != headers
  {
    if headers == [] {
      NoHeadersDecode(rest);
    } else {
      hide HeaderIsPlain, HeadersArePlain, DecodeHeaders, EncodedHeaders, HeaderText;
      var first, later := headers[0], headers[1..];
      var rest' := EncodedHeaders(later) + rest;
      FirstEncoded(headers);
      Associate(HeaderText(first) + CRLF, EncodedHeaders(later), rest);
      FirstLine(first, rest');
      HeadersDecode(later, rest);
      HeadersPlainFirst(headers);
      assert headers == [first] + later;
      var decoded := DecodeHeaders(rest');
      if decoded.Some? {
        SameTail(first, decoded.value.0, later);
      }
    }
  }

  /** What follows the boundary line of the first part */
  function AfterBoundary(boundary: Bytes, fs: seq<Flagged>): Bytes
    requires fs != []
  {
    EncodedHeaders(fs[0].part.headers)
    + fs[0].part.body
    + (if fs[0].final then BoundaryData(Final, boundary) else [])
    + EncodedParts(boundary, fs[1..])
  }

  lemma LastPart(boundary: Bytes, fs: seq<Flagged>)
    requires fs != []
    ensures EncodedParts(boundary, fs) == EncodedParts(boundary, fs[..|fs| - 1]) + EncodedPart(boundary, fs[|fs| - 1])
  {
  }

  lemma {:induction false} FirstPart(boundary: Bytes, fs: seq<Flagged>)
    requires fs != []
    ensures EncodedParts(boundary, fs) == EncodedPart(boundary, fs[0]) + EncodedParts(boundary, fs[1..])
  {
    hide EncodedPart;
    if |fs| > 1 {
      var n := |fs| - 1;
      FirstPart(boundary, fs[..n]);
      assert fs[..n][1..] == fs[1..][..n - 1] && fs[1..][n - 1] == fs[n] && fs[..n][0] == fs[0];
      LastPart(boundary, fs);
      LastPart(boundary, fs[1..]);
      hide EncodedParts;
      Associate(EncodedPart(boundary, fs[0]), EncodedParts(boundary, fs[1..][..n - 1]), EncodedPart(boundary, fs[n]));
    } else {
      assert fs[..0] == [] && fs[1..] == [];
    }
  }

  lemma AfterFirstBoundary(boundary: Bytes, fs: seq<Flagged>)
    requires fs != []
    ensures EncodedParts(boundary, fs) ==
      BoundaryData(if fs[0].initial then Initial else Encapsulated, boundary) + AfterBoundary(boundary, fs)
  {
    hide BoundaryData, EncodedHeaders, EncodedParts;
    FirstPart(boundary, fs);
    var f := fs[0];
    RegroupFive(BoundaryData(if f.initial then Initial else Encapsulated, boundary), EncodedHeaders(f.part.headers), f.part.body,
                if f.final then BoundaryData(Final, boundary) else [], EncodedParts(boundary, fs[1..]));
  }

  lemma RegroupFive(a: Bytes, b: Bytes, c: Bytes, d: Bytes, e: Bytes)
    ensures a + b + c + d + e == a + (b + c + d + e)
  {
    Associate(a, b, c);
    Associate(a, b + c, d);
    Associate(a, b + c + d, e);
  }

  /** The flags of one encode(): an initial boundary at the first part only, and a final one at
      least at the last. */
  ghost predicate FlagsFit(fs: seq<Flagged>) {
    && fs != [] && fs[0].initial && fs[|fs| - 1].final
    && forall i | 1 <= i < |fs| :: !fs[i].initial
  }

  /** What the delimiter after a part leads to */
  function Ending(boundary: Bytes, fs: seq<Flagged>): Bytes
    requires fs != [] && (|fs| == 1 ==> fs[0].final)
  {
    if fs[0].final then DASHES + CRLF + EncodedParts(boundary, fs[1..]) else CRLF + AfterBoundary(boundary, fs[1..])
  }

  lemma DelimiterFollows(boundary: Bytes, fs: seq<Flagged>)
    requires fs != [] && (|fs| == 1 ==> fs[0].final) && (|fs| > 1 ==> !fs[1].initial)
    ensures AfterBoundary(boundary, fs) ==
      EncodedHeaders(fs[0].part.headers) + (fs[0].part.body + Delimiter(boundary) + Ending(boundary, fs))
  {
    hide EncodedHeaders, EncodedParts;
    var h, body, d := EncodedHeaders(fs[0].part.headers), fs[0].part.body, Delimiter(boundary);
    if fs[0].final {
      assert BoundaryData(Final, boundary) == d + (DASHES + CRLF);
      Regroup(h, body, d, DASHES + CRLF, EncodedParts(boundary, fs[1..]));
    } else {
      AfterFirstBoundary(boundary, fs[1..]);
      var later := AfterBoundary(boundary, fs[1..]);
      hide AfterBoundary;
      assert BoundaryData(Encapsulated, boundary) == d + CRLF;
      Regroup(h, body, d, CRLF, later);
      RegroupNone(h + body, d + CRLF, later);
      AfterBoundaryIs(boundary, fs);
    }
  }

  lemma AfterBoundaryIs(boundary: Bytes, fs: seq<Flagged>)
    requires fs != [] && !fs[0].final
    ensures AfterBoundary(boundary, fs) ==
      EncodedHeaders(fs[0].part.headers) + fs[0].part.body + [] + EncodedParts(boundary, fs[1..])
  {
  }

  lemma Regroup(h: Bytes, body: Bytes, d: Bytes, x: Bytes, y: Bytes)
    ensures h + body + (d + x) + y == h + (body + d + (x + y))
  {
  }

  lemma RegroupNone(h: Bytes, d: Bytes, y: Bytes)
    ensures h + [] + (d + y) == h + d + y
  {
  }

  /** The decoder at the headers of a part */
  lemma PartDecodes(boundary: Bytes, part: Part, ending: Bytes)
    requires CR !in boundary
    ensures var result := DecodeParts(boundary, EncodedHeaders(part.headers) + (part.body + Delimiter(boundary) + ending));
      if !PartIsPlain(boundary, part) then result.Some? ==> result.value != [] && result.value[0] != part
      else if DASHES <= ending then result == Some([part])
      else if CRLF <= ending then result == match DecodeParts(boundary, ending[2..])
        case None => None
        case Some(parts) => Some([part] + parts)
      else result == None
  {
    hide HeadersArePlain, DecodeHeaders, EncodedHeaders, IsAt;
    var D, rest := Delimiter(boundary), part.body + Delimiter(boundary) + ending;
    HeadersDecode(part.headers, rest);
    FindsWhereItStands(D, part.body, ending);
    assert rest[..|part.body|] == part.body;
    assert rest[|part.body| + |D|..] == ending;
  }

  /** Every part is plain, and only the last is followed by a final boundary. */
  ghost predicate AllPlain(boundary: Bytes, fs: seq<Flagged>) {
    && (forall i | 0 <= i < |fs| :: PartIsPlain(boundary, fs[i].part))
    && (forall i | 0 <= i < |fs| - 1 :: !fs[i].final)
  }

  lemma AllPlainFirst(boundary: Bytes, fs: seq<Flagged>)
    requires |fs| > 1
    ensures AllPlain(boundary, fs) <==> PartIsPlain(boundary, fs[0].part) && !fs[0].final && AllPlain(boundary, fs[1..])
  {
    hide PartIsPlain;
    var later := fs[1..];
    assert forall i | 1 <= i < |fs| :: fs[i] == later[i - 1];
    assert forall i | 0 <= i < |later| :: later[i] == fs[i + 1];
  }

  lemma {:induction false} PartsDecode(boundary: Bytes, fs: seq<Flagged>)
    requires CR !in boundary && fs != [] && fs[|fs| - 1].final && forall i | 1 <= i < |fs| :: !fs[i].initial
    ensures DecodeParts(boundary, AfterBoundary(boundary, fs)) == Some(Parts(fs)) <==> AllPlain(boundary, fs)
  {
    hide PartIsPlain, DecodeParts, AfterBoundary, EncodedHeaders, EncodedParts, Delimiter;
    var ending, later := Ending(boundary, fs), fs[1..];
    DelimiterFollows(boundary, fs);
    PartDecodes(boundary, fs[0].part, ending);
    if !fs[0].final {
      hide AllPlain;
      PartsDecode(boundary, later);
      AllPlainFirst(boundary, fs);
      assert ending[2..] == AfterBoundary(boundary, later) && ending[0] == CR && CRLF <= ending;
      assert Parts(fs) == [fs[0].part] + Parts(later);
      var decoded := DecodeParts(boundary, ending[2..]);
      if decoded.Some? {
        SameTail(fs[0].part, decoded.value, Parts(later));
      }
    } else {
      assert ending[..2] == DASHES;
      assert |fs| == 1 ==> Parts(fs) == [fs[0].part];
      assert AllPlain(boundary, fs) <==> |fs| == 1 && PartIsPlain(boundary, fs[0].part);
    }
  }

  /** Part k is the first that is followed by a final boundary. */
  ghost predicate IsFirstFinal(fs: seq<Flagged>, k: nat) {
    k < |fs| && fs[k].final && forall i | 0 <= i < k :: !fs[i].final
  }

  ghost predicate PlainUpTo(boundary: Bytes, fs: seq<Flagged>, k: nat)
    requires k < |fs|
  {
    forall i | 0 <= i <= k :: PartIsPlain(boundary, fs[i].part)
  }

  lemma PlainUpToFirst(boundary: Bytes, fs: seq<Flagged>, k: nat)
    requires 0 < k < |fs|
    ensures PlainUpTo(boundary, fs, k) <==> PartIsPlain(boundary, fs[0].part) && PlainUpTo(boundary, fs[1..], k - 1)
    ensures IsFirstFinal(fs, k) <==> !fs[0].final && IsFirstFinal(fs[1..], k - 1)
    ensures Parts(fs[..k + 1]) == [fs[0].part] + Parts(fs[1..][..k])
  {
    hide PartIsPlain;
    assert forall i | 1 <= i < |fs| :: fs[i] == fs[1..][i - 1];
    assert fs[..k + 1][1..] == fs[1..][..k];
  }

  lemma {:induction false} PartsDecodeUpTo(boundary: Bytes, fs: seq<Flagged>, k: nat)
    requires CR !in boundary && IsFirstFinal(fs, k) && forall i | 1 <= i < |fs| :: !fs[i].initial
    ensures DecodeParts(boundary, AfterBoundary(boundary, fs)) == Some(Parts(fs[..k + 1])) <==> PlainUpTo(boundary, fs, k)
  {
    hide PartIsPlain, DecodeParts, AfterBoundary, EncodedHeaders, EncodedParts, Delimiter;
    var ending, later := Ending(boundary, fs), fs[1..];
    DelimiterFollows(boundary, fs);
    PartDecodes(boundary, fs[0].part, ending);
    if k == 0 {
      assert ending[..2] == DASHES;
      assert Parts(fs[..1]) == [fs[0].part];
    } else {
      hide PlainUpTo, IsFirstFinal;
      PlainUpToFirst(boundary, fs, k);
      PartsDecodeUpTo(boundary, later, k - 1);
      assert ending[2..] == AfterBoundary(boundary, later) && ending[0] == CR && CRLF <= ending;
      var decoded := DecodeParts(boundary, ending[2..]);
      if decoded.Some? {
        SameTail(fs[0].part, decoded.value, Parts(later[..k]));
      }
    }
  }

  /** What a decoder makes of one encode(): the parts up to and including the first with a final boundary,
      exactly if these are plain. */
  lemma DecodesUpToFinal(boundary: Bytes, fs: seq<Flagged>, k: nat)
    requires CR !in boundary && FlagsFit(fs) && IsFirstFinal(fs, k)
    ensures Decode(boundary, EncodedParts(boundary, fs)) == Some(Parts(fs[..k + 1])) <==> PlainUpTo(boundary, fs, k)
  {
    hide PlainUpTo, EncodedParts;
    AfterFirstBoundary(boundary, fs);
    var initial := BoundaryData(Initial, boundary);
    assert (initial + AfterBoundary(boundary, fs))[|initial|..] == AfterBoundary(boundary, fs);
    PartsDecodeUpTo(boundary, fs, k);
  }

  /** Decoding one encode() gives back the parts exactly if no header text and no body contains
      what ends it, and no part but the last has kept a final boundary. */
  lemma DecodesExactly(boundary: Bytes, fs: seq<Flagged>)
    requires CR !in boundary && FlagsFit(fs)
    ensures Decode(boundary, EncodedParts(boundary, fs)) == Some(Parts(fs)) <==> AllPlain(boundary, fs)
  {
    AfterFirstBoundary(boundary, fs);
    var initial := BoundaryData(Initial, boundary);
    assert (initial + AfterBoundary(boundary, fs))[|initial|..] == AfterBoundary(boundary, fs);
    PartsDecode(boundary, fs);
  }
}
