/** MultipartFormData.swift: body parts with boundary flags and streams, and their encoding in memory. */
module Multipart {
  import opened Collections
  import opened MultipartFormat

  datatype Error =
    | BodyPartFailed(reason: int)
    | InputStreamReadFailed(reason: int)
    | UnexpectedInputStreamLength(bytesExpected: nat, bytesRead: nat)

  datatype Result<+T> = Success(value: T) | Failure(error: Error)

  /** One call of read on a stream that has bytes available: what it delivered, and streamError */
  datatype Read = Read(bytes: Bytes, streamError: Option<int>)

  /** A body part as a value */
  datatype Source = Source(headers: seq<Header>, stream: seq<Read>, length: nat, initial: bool, final: bool)

  // ---------- What encoding computes ----------

  /** Everything delivered until the stream ends, delivers nothing or fails */
  function Drained(stream: seq<Read>): Result<Bytes> {
    if stream == [] then Success([])
    else if stream[0].streamError.Some? then Failure(InputStreamReadFailed(stream[0].streamError.value))
    else if stream[0].bytes == [] then Success([])
    else match Drained(stream[1..])
      case Failure(error) => Failure(error)
      case Success(later) => Success(stream[0].bytes + later)
  }

  function Body(source: Source): Result<Bytes> {
    match Drained(source.stream)
    case Failure(error) => Failure(error)
    case Success(body) =>
      if |body| == source.length then Success(body)
      else Failure(UnexpectedInputStreamLength(source.length, |body|))
  }

  ghost predicate Readable(sources: seq<Source>) {
    forall i | 0 <= i < |sources| :: Body(sources[i]).Success?
  }

  function FlaggedPart(source: Source): Flagged
    requires Body(source).Success?
  {
    Flagged(Part(source.headers, Body(source).value), source.initial, source.final)
  }

  ghost function FlaggedParts(sources: seq<Source>): (fs: seq<Flagged>)
    requires Readable(sources)
    ensures |fs| == |sources| && forall i | 0 <= i < |fs| :: fs[i] == FlaggedPart(sources[i])
  {
    seq(|sources|, i requires 0 <= i < |sources| => FlaggedPart(sources[i]))
  }

  /** The outcome of the loop in encode() */
  function Encoded(boundary: Bytes, sources: seq<Source>): Result<Bytes> {
    if sources == [] then Success([]) else
    var n := |sources| - 1;
    match Encoded(boundary, sources[..n])
    case Failure(error) => Failure(error)
    case Success(earlier) =>
      match Body(sources[n])
      case Failure(error) => Failure(error)
      case Success(_) => Success(earlier + EncodedPart(boundary, FlaggedPart(sources[n])))
  }

  /** The flags set by encode() */
  function Marked(sources: seq<Source>): (marked: seq<Source>)
    ensures |marked| == |sources|
  {
    if sources == [] then [] else
    var first := sources[0 := sources[0].(initial := true)];
    first[|first| - 1 := first[|first| - 1].(final := true)]
  }

  /** How the bytes are cut into reads does not matter. */
  lemma {:induction false} ChunksDoNotMatter(stream: seq<Read>)
    requires forall i | 0 <= i < |stream| :: stream[i].streamError.None? && stream[i].bytes != []
    ensures Drained(stream) == Success(Concat(stream))
  {
    if stream != [] {
      ChunksDoNotMatter(stream[1..]);
    }
  }

  function Concat(stream: seq<Read>): Bytes {
    if stream == [] then [] else stream[0].bytes + Concat(stream[1..])
  }

  /** encode() succeeds exactly if every part has the length it announced, and otherwise fails
      with the error of the first part that has not. */
  lemma {:induction false} EncodedIs(boundary: Bytes, sources: seq<Source>)
    ensures Readable(sources) ==> Encoded(boundary, sources) == Success(EncodedParts(boundary, FlaggedParts(sources)))
    ensures !Readable(sources) ==> exists i ::
      0 <= i < |sources| && Readable(sources[..i]) && Body(sources[i]).Failure? &&
      Encoded(boundary, sources) == Failure(Body(sources[i]).error)
  {
    if sources != [] {
      hide Body, EncodedPart;
      var n := |sources| - 1;
      EncodedIs(boundary, sources[..n]);
      ReadableSnoc(sources);
      hide FlaggedParts, Readable;
      if Readable(sources) {
        FlaggedSnoc(sources);
        assert FlaggedParts(sources)[..n] == FlaggedParts(sources[..n]);
      } else if Readable(sources[..n]) {
        assert Body(sources[n]).Failure?;
      } else {
        var i :| 0 <= i < n && Readable(sources[..n][..i]) && Body(sources[..n][i]).Failure? &&
          Encoded(boundary, sources[..n]) == Failure(Body(sources[..n][i]).error);
        assert sources[..n][..i] == sources[..i] && sources[..n][i] == sources[i];
      }
    }
  }

  lemma FlaggedSnoc(sources: seq<Source>)
    requires sources != [] && Readable(sources)
    ensures var n := |sources| - 1;
      Readable(sources[..n]) && Body(sources[n]).Success? && FlaggedParts(sources) == FlaggedParts(sources[..n]) + [FlaggedPart(sources[n])]
  {
    hide Body;
    assert forall i | 0 <= i < |sources| - 1 :: sources[..|sources| - 1][i] == sources[i];
  }

  lemma ReadableSnoc(sources: seq<Source>)
    requires sources != []
    ensures Readable(sources) <==> Readable(sources[..|sources| - 1]) && Body(sources[|sources| - 1]).Success?
  {
    hide Body;
    var n := |sources| - 1;
    assert forall i | 0 <= i < n :: sources[i] == sources[..n][i];
  }

  lemma NothingEncoded(boundary: Bytes, sources: seq<Source>)
    ensures Encoded(boundary, sources[..0]) == Success([]) && Readable(sources[..0])
  {
  }

  lemma NextIsEncoded(boundary: Bytes, sources: seq<Source>, k: nat)
    requires k < |sources| && Readable(sources[..k]) && Encoded(boundary, sources[..k]).Success?
    ensures Readable(sources[..k + 1]) <==> Body(sources[k]).Success?
    ensures Encoded(boundary, sources[..k + 1]) == match Body(sources[k])
      case Failure(error) => Failure(error)
      case Success(_) => Success(Encoded(boundary, sources[..k]).value + EncodedPart(boundary, FlaggedPart(sources[k])))
    ensures Body(sources[k]).Failure? ==> Encoded(boundary, sources) == Failure(Body(sources[k]).error)
    ensures Body(sources[k]).Failure? ==> forall i | k < i <= |sources| :: !Readable(sources[..i])
  {
    hide Body, EncodedPart;
    assert sources[..k + 1][..k] == sources[..k];
    ReadableSnoc(sources[..k + 1]);
    if Body(sources[k]).Failure? {
      EncodedIs(boundary, sources);
      forall i | k < i <= |sources| ensures !Readable(sources[..i]) {
        assert sources[..i][k] == sources[k];
      }
      assert sources[..|sources|] == sources;
      assert forall i | 0 <= i < k :: sources[..k][i] == sources[i];
    }
  }

  /** Reading stops before read n: it is the first that fails or delivers nothing, or there is none. */
  ghost predicate StopsAt(stream: seq<Read>, n: nat) {
    && n <= |stream|
    && (forall i | 0 <= i < n :: stream[i].streamError.None? && stream[i].bytes != [])
    && (n < |stream| ==> stream[n].streamError.Some? || stream[n].bytes == [])
  }

  /** What a part yields: the error of the read that fails; or all bytes, if they are as many as announced;
      or the numbers of bytes announced and read. */
  ghost predicate Yields(source: Source, n: nat, result: Result<Bytes>) {
    && StopsAt(source.stream, n)
    && if n < |source.stream| && source.stream[n].streamError.Some?
       then result == Failure(InputStreamReadFailed(source.stream[n].streamError.value))
       else var bytes := Concat(source.stream[..n]);
            result == if |bytes| == source.length then Success(bytes) else Failure(UnexpectedInputStreamLength(source.length, |bytes|))
  }

  lemma {:induction false} DrainedIs(stream: seq<Read>, n: nat)
    requires StopsAt(stream, n)
    ensures Drained(stream) ==
      if n < |stream| && stream[n].streamError.Some? then Failure(InputStreamReadFailed(stream[n].streamError.value))
      else Success(Concat(stream[..n]))
  {
    if n > 0 {
      DrainedIs(stream[1..], n - 1);
      assert stream[..n][1..] == stream[1..][..n - 1];
    }
  }

  /** Every part yields exactly one result, which is that of encodeBodyStream(for:). */
  lemma YieldsBody(source: Source, n: nat, result: Result<Bytes>)
    requires StopsAt(source.stream, n)
    ensures Yields(source, n, result) <==> result == Body(source)
  {
    DrainedIs(source.stream, n);
  }

  lemma ReadingStops(stream: seq<Read>) returns (n: nat)
    ensures StopsAt(stream, n)
  {
    n := 0;
    while n < |stream| && stream[n].streamError.None? && stream[n].bytes != []
      invariant n <= |stream| && forall i | 0 <= i < n :: stream[i].streamError.None? && stream[i].bytes != []
    {
      n := n + 1;
    }
  }

  /** Encoding succeeds with the parts' bytes if each part yields some ... */
  lemma EncodedYields(boundary: Bytes, sources: seq<Source>, ns: seq<nat>, fs: seq<Flagged>)
    requires |sources| == |ns| == |fs|
    requires forall i | 0 <= i < |sources| ::
      && Yields(sources[i], ns[i], Success(fs[i].part.body))
      && fs[i] == Flagged(Part(sources[i].headers, fs[i].part.body), sources[i].initial, sources[i].final)
    ensures Encoded(boundary, sources) == Success(EncodedParts(boundary, fs))
  {
    hide Body, EncodedParts, Encoded, Yields;
    forall i | 0 <= i < |sources| ensures Body(sources[i]) == Success(fs[i].part.body) {
      YieldsOnly(sources[i], ns[i], Success(fs[i].part.body));
    }
    EncodedIs(boundary, sources);
    assert FlaggedParts(sources) == fs;
  }

  lemma YieldsOnly(source: Source, n: nat, result: Result<Bytes>)
    requires Yields(source, n, result)
    ensures result == Body(source)
  {
    YieldsBody(source, n, result);
  }

  /** ... and else fails with what the first part yields that does not. */
  lemma EncodedFails(boundary: Bytes, sources: seq<Source>, ns: seq<nat>, results: seq<Result<Bytes>>, k: nat)
    requires k < |sources| == |ns| == |results|
    requires forall i | 0 <= i <= k :: Yields(sources[i], ns[i], results[i])
    requires results[k].Failure? && forall i | 0 <= i < k :: results[i].Success?
    ensures Encoded(boundary, sources) == Failure(results[k].error)
  {
    hide Body, Encoded, Yields;
    forall i | 0 <= i <= k ensures Body(sources[i]) == results[i] {
      YieldsOnly(sources[i], ns[i], results[i]);
    }
    assert forall i | 0 <= i < k :: sources[..k][i] == sources[i];
    EncodedIs(boundary, sources[..k]);
    NextIsEncoded(boundary, sources, k);
  }

  /** Only the first part may have an initial boundary. */
  ghost predicate InitialFits(sources: seq<Source>) {
    forall i | 1 <= i < |sources| :: !sources[i].initial
  }

  /** Decoding gives back the parts exactly if none contains what ends it and none but the last
      was the last part of an earlier encode(). */
  lemma RoundTrip(boundary: Bytes, sources: seq<Source>)
    requires CR !in boundary && sources != [] && InitialFits(sources) && Readable(Marked(sources))
    ensures var fs := FlaggedParts(Marked(sources));
      Encoded(boundary, Marked(sources)) == Success(EncodedParts(boundary, fs)) &&
      (Decode(boundary, EncodedParts(boundary, fs)) == Some(Parts(fs)) <==>
        && (forall i | 0 <= i < |sources| :: PartIsPlain(boundary, fs[i].part))
        && (forall i | 0 <= i < |sources| - 1 :: !sources[i].final))
  {
    hide PartIsPlain, Decode, EncodedParts, Encoded, FlaggedParts, Readable, Marked;
    EncodedIs(boundary, Marked(sources));
    MarkedFlags(sources);
    DecodesExactly(boundary, FlaggedParts(Marked(sources)));
  }

  lemma MarkedFlags(sources: seq<Source>)
    requires sources != [] && InitialFits(sources) && Readable(Marked(sources))
    ensures var fs := FlaggedParts(Marked(sources));
      |fs| == |sources| && FlagsFit(fs) && forall i | 0 <= i < |sources| - 1 :: fs[i].final == sources[i].final
  {
    hide Body, Readable;
  }

  /** The streams are used up by an encode(), so another one succeeds exactly if nothing was
      announced. */
  lemma EncodedAgain(boundary: Bytes, sources: seq<Source>)
    requires forall i | 0 <= i < |sources| :: sources[i].stream == []
    ensures Encoded(boundary, sources).Success? <==> forall i | 0 <= i < |sources| :: sources[i].length == 0
  {
    EncodedIs(boundary, sources);
    forall i | 0 <= i < |sources| ensures Body(sources[i]).Success? <==> sources[i].length == 0 {
      assert Drained(sources[i].stream) == Success([]);
    }
  }

  // ---------- Uses of a form ----------

  /** What a client does: it appends a part, tries to append one that cannot be made, or encodes. */
  datatype Use =
    | AppendPart(stream: seq<Read>, length: nat, headers: seq<Header>)
    | FailPart(error: Error)
    | EncodeForm

  datatype Form = Form(sources: seq<Source>, error: Option<Error>)

  /** encode() sets the flags and uses up the streams of all parts up to the first that fails. */
  ghost function AfterEncode(sources: seq<Source>): (after: seq<Source>)
    ensures |after| == |sources|
  {
    var marked := Marked(sources);
    seq(|sources|, i requires 0 <= i < |sources| => if Readable(marked[..i]) then marked[i].(stream := []) else marked[i])
  }

  ghost function UseForm(form: Form, use: Use): Form {
    match use
    case AppendPart(stream, length, headers) =>
      form.(sources := form.sources + [Source(headers, stream, length, false, false)])
    case FailPart(error) => if form.error.None? then form.(error := Some(error)) else form
    case EncodeForm => if form.error.None? then form.(sources := AfterEncode(form.sources)) else form
  }

  ghost function FormAfter(uses: seq<Use>): Form {
    if uses == [] then Form([], None) else UseForm(FormAfter(uses[..|uses| - 1]), uses[|uses| - 1])
  }

  function Appends(uses: seq<Use>): nat {
    if uses == [] then 0 else
    Appends(uses[..|uses| - 1]) + (if uses[|uses| - 1].AppendPart? then 1 else 0)
  }

  predicate NoPartFails(uses: seq<Use>) {
    forall k | 0 <= k < |uses| :: !uses[k].FailPart?
  }

  /** Use k is an encode() that got past the part error while n parts had been appended. */
  predicate EncodesAt(uses: seq<Use>, k: nat, n: nat) {
    k < |uses| && uses[k].EncodeForm? && NoPartFails(uses[..k]) && Appends(uses[..k]) == n
  }

  /** An encode() ran while n parts had been appended. */
  ghost predicate EncodedWith(uses: seq<Use>, n: nat) {
    exists k :: EncodesAt(uses, k, n)
  }

  lemma EncodesAtSnoc(uses: seq<Use>, use: Use, k: nat, n: nat)
    ensures EncodesAt(uses + [use], k, n) <==>
      if k == |uses| then use.EncodeForm? && NoPartFails(uses) && Appends(uses) == n else EncodesAt(uses, k, n)
  {
    hide NoPartFails, Appends;
    if k == |uses| {
      assert (uses + [use])[..k] == uses;
    } else if k < |uses| {
      assert (uses + [use])[..k] == uses[..k];
    }
  }

  lemma EncodedWithSnoc(uses: seq<Use>, use: Use, n: nat)
    ensures EncodedWith(uses + [use], n) <==>
      EncodedWith(uses, n) || (use.EncodeForm? && NoPartFails(uses) && Appends(uses) == n)
  {
    hide EncodesAt, NoPartFails, Appends;
    if EncodedWith(uses, n) {
      var k :| EncodesAt(uses, k, n);
      EncodesEarlier(uses, k, n);
      EncodesAtSnoc(uses, use, k, n);
    }
    EncodesAtSnoc(uses, use, |uses|, n);
    if EncodedWith(uses + [use], n) {
      var k :| EncodesAt(uses + [use], k, n);
      EncodesAtSnoc(uses, use, k, n);
    }
  }

  lemma EncodesEarlier(uses: seq<Use>, k: nat, n: nat)
    requires EncodesAt(uses, k, n)
    ensures k < |uses|
  {
  }

  /** What the history says of a form: one part for each append, the error if a part failed, and a
      final flag exactly on the parts that were last in an encode(). */
  ghost predicate Reflects(form: Form, uses: seq<Use>) {
    && |form.sources| == Appends(uses) && (form.error.None? <==> NoPartFails(uses))
    && InitialFits(form.sources)
    && (forall i: nat | i < |form.sources| :: form.sources[i].final <==> EncodedWith(uses, i + 1))
  }

  lemma AfterEncodeFlags(sources: seq<Source>)
    ensures forall i | 0 <= i < |sources| ::
      AfterEncode(sources)[i].final == (sources[i].final || i == |sources| - 1) &&
      AfterEncode(sources)[i].initial == (sources[i].initial || i == 0)
  {
    hide Readable;
  }

  lemma NotYetEncoded(uses: seq<Use>, n: nat)
    requires n > Appends(uses)
    ensures !EncodedWith(uses, n)
  {
    forall k | EncodesAt(uses, k, n) ensures false {
      AppendsGrow(uses, k);
    }
  }

  lemma {:induction false} AppendsGrow(uses: seq<Use>, k: nat)
    requires k <= |uses|
    ensures Appends(uses[..k]) <= Appends(uses)
  {
    if k == |uses| {
      assert uses[..k] == uses;
    } else {
      AppendsGrow(uses[..|uses| - 1], k);
      assert uses[..|uses| - 1][..k] == uses[..k];
    }
  }

  lemma UseReflects(form: Form, uses: seq<Use>, use: Use)
    requires Reflects(form, uses)
    ensures Reflects(UseForm(form, use), uses + [use])
  {
    hide EncodedWith, AfterEncode;
    assert (uses + [use])[..|uses|] == uses;
    forall n: nat ensures EncodedWith(uses + [use], n) <==>
      EncodedWith(uses, n) || (use.EncodeForm? && NoPartFails(uses) && Appends(uses) == n)
    {
      EncodedWithSnoc(uses, use, n);
    }
    AfterEncodeFlags(form.sources);
    NotYetEncoded(uses, |form.sources| + 1);
  }

  /** After any uses, part i carries a final boundary if and only if an encode() that got past the part
      error ran while it was last. */
  lemma {:induction false} FormReflects(uses: seq<Use>)
    ensures Reflects(FormAfter(uses), uses)
  {
    if uses == [] {
    } else {
      hide Reflects, UseForm;
      var n := |uses| - 1;
      FormReflects(uses[..n]);
      UseReflects(FormAfter(uses[..n]), uses[..n], uses[n]);
      assert uses == uses[..n] + [uses[n]];
    }
  }

  /** Some encode() ran between the first append and the last. */
  ghost predicate EncodedBetween(uses: seq<Use>) {
    exists k: nat :: k < |uses| && uses[k].EncodeForm? && 0 < Appends(uses[..k]) < Appends(uses)
  }

  lemma BetweenIsEncodedWith(uses: seq<Use>)
    requires NoPartFails(uses)
    ensures EncodedBetween(uses) <==> exists n :: 0 < n < Appends(uses) && EncodedWith(uses, n)
  {
    if EncodedBetween(uses) {
      var k: nat :| k < |uses| && uses[k].EncodeForm? && 0 < Appends(uses[..k]) < Appends(uses);
      assert EncodesAt(uses, k, Appends(uses[..k]));
      assert EncodedWith(uses, Appends(uses[..k]));
    }
    forall n | 0 < n < Appends(uses) && EncodedWith(uses, n) ensures EncodedBetween(uses) {
      var k :| EncodesAt(uses, k, n);
    }
  }

  /** Main result: an encode() after any uses, if it succeeds, decodes to its parts if and only if they
      are plain and no encode() ran between the first append and the last. */
  lemma UsesRoundTrip(boundary: Bytes, uses: seq<Use>)
    requires CR !in boundary && FormAfter(uses).error.None? && FormAfter(uses).sources != []
    requires Readable(Marked(FormAfter(uses).sources))
    ensures var fs := FlaggedParts(Marked(FormAfter(uses).sources));
      Encoded(boundary, Marked(FormAfter(uses).sources)) == Success(EncodedParts(boundary, fs)) &&
      (Decode(boundary, EncodedParts(boundary, fs)) == Some(Parts(fs)) <==>
        (forall i | 0 <= i < |fs| :: PartIsPlain(boundary, fs[i].part)) && !EncodedBetween(uses))
  {
    hide PartIsPlain, Decode, EncodedParts, Encoded, FormAfter, EncodedWith, EncodedBetween, Readable, FlaggedParts;
    var sources := FormAfter(uses).sources;
    FormReflects(uses);
    RoundTrip(boundary, sources);
    BetweenIsEncodedWith(uses);
    assert forall n | 0 < n < |sources| :: sources[n - 1].final <==> EncodedWith(uses, n);
    assert forall i | 0 <= i < |sources| - 1 :: sources[i].final <==> EncodedWith(uses, i + 1);
  }

  /** What a decoder makes of an encode() after any uses: the parts up to and including the first that was
      last in some encode(), exactly if these are plain.  The parts behind it are lost. */
  lemma UsesDecode(boundary: Bytes, uses: seq<Use>, k: nat)
    requires CR !in boundary && FormAfter(uses).error.None? && k < |FormAfter(uses).sources|
    requires Readable(Marked(FormAfter(uses).sources))
    requires EncodedWith(uses, k + 1) || k == |FormAfter(uses).sources| - 1
    requires forall n | 0 < n <= k :: !EncodedWith(uses, n)
    ensures var fs := FlaggedParts(Marked(FormAfter(uses).sources));
      Decode(boundary, EncodedParts(boundary, fs)) == Some(Parts(fs[..k + 1])) <==> PlainUpTo(boundary, fs, k)
  {
    hide Decode, EncodedParts, FormAfter, EncodedWith, Readable, FlaggedParts, Marked, PlainUpTo;
    var sources := FormAfter(uses).sources;
    var fs := FlaggedParts(Marked(sources));
    FormReflects(uses);
    MarkedFlags(sources);
    assert forall i: nat | i < |sources| :: sources[i].final ==> EncodedWith(uses, i + 1);
    DecodesUpToFinal(boundary, fs, k);
  }

  /** An encode() that succeeds uses up all streams, so that the next one succeeds exactly if nothing was
      announced. */
  lemma EncodedTwice(boundary: Bytes, sources: seq<Source>)
    requires Readable(Marked(sources))
    ensures Encoded(boundary, Marked(AfterEncode(sources))).Success? <==> forall i | 0 <= i < |sources| :: sources[i].length == 0
  {
    hide Body, Encoded;
    var again := Marked(AfterEncode(sources));
    assert forall i | 0 <= i < |sources| :: Readable(Marked(sources)[..i]);
    assert forall i | 0 <= i < |sources| :: again[i].stream == [] && again[i].length == sources[i].length;
    EncodedAgain(boundary, again);
  }

  /** The first part that cannot be made decides the error of every later encode(). */
  lemma {:induction false} FirstErrorStays(uses: seq<Use>, k: nat)
    requires k < |uses| && uses[k].FailPart? && NoPartFails(uses[..k])
    ensures FormAfter(uses).error == Some(uses[k].error)
  {
    hide AfterEncode;
    var n := |uses| - 1;
    if k == n {
      FormReflects(uses[..n]);
    } else {
      FirstErrorStays(uses[..n], k);
      assert uses[..n][..k] == uses[..k];
    }
  }

  // ---------- The classes ----------

  class BodyPart {
    const headers: seq<Header>
    var bodyStream: seq<Read>
    const bodyContentLength: nat
    var hasInitialBoundary: bool
    var hasFinalBoundary: bool

    constructor (headers: seq<Header>, bodyStream: seq<Read>, bodyContentLength: nat)
      ensures View() == Source(headers, bodyStream, bodyContentLength, false, false)
    {
      this.headers, this.bodyStream, this.bodyContentLength := headers, bodyStream, bodyContentLength;
      hasInitialBoundary, hasFinalBoundary := false, false;
    }

    ghost function View(): Source
      reads this
    {
      Source(headers, bodyStream, bodyContentLength, hasInitialBoundary, hasFinalBoundary)
    }
  }

  class MultipartFormData {
    const boundary: Bytes
    var bodyParts: seq<BodyPart>
    var bodyPartError: Option<Error>

    ghost function View(): (sources: seq<Source>)
      reads this, bodyParts
      ensures |sources| == |bodyParts| && forall i | 0 <= i < |bodyParts| :: sources[i] == bodyParts[i].View()
    {
      seq(|bodyParts|, i requires 0 <= i < |bodyParts| reads this, bodyParts => bodyParts[i].View())
    }

    ghost predicate Valid()
      reads this, bodyParts
    {
      && (forall i, j | 0 <= i < j < |bodyParts| :: bodyParts[i] != bodyParts[j])
      && InitialFits(View())
    }

    constructor (boundary: Bytes)
      ensures Valid() && this.boundary == boundary && View() == [] && bodyPartError == None
    {
      this.boundary := boundary;
      bodyParts, bodyPartError := [], None;
    }

    /** append(_:withLength:headers:) */
    method Append(bodyStream: seq<Read>, length: nat, headers: seq<Header>)
      requires Valid()
      modifies this`bodyParts
      ensures Valid() && View() == old(View()) + [Source(headers, bodyStream, length, false, false)]
      ensures bodyParts[..|old(bodyParts)|] == old(bodyParts) && fresh(bodyParts[|old(bodyParts)|])
    {
      var bodyPart := new BodyPart(headers, bodyStream, length);
      bodyParts := bodyParts + [bodyPart];
    }

    /** setBodyPartError(withReason:): the first error stays. */
    method SetBodyPartError(error: Error)
      requires Valid()
      modifies this`bodyPartError
      ensures Valid() && View() == old(View())
      ensures bodyPartError == if old(bodyPartError).None? then Some(error) else old(bodyPartError)
    {
      if bodyPartError.None? {
        bodyPartError := Some(error);
      }
    }

    /** encode() */
    method Encode() returns (result: Result<Bytes>)
      requires Valid()
      modifies bodyParts
      ensures Valid()
      ensures bodyPartError.Some? ==> result == Failure(bodyPartError.value) && View() == old(View())
      ensures bodyPartError.None? ==> result == Encoded(boundary, Marked(old(View())))
      ensures bodyPartError.None? ==> forall i | 0 <= i < |bodyParts| ::
        View()[i] == if Readable(Marked(old(View()))[..i]) then Marked(old(View()))[i].(stream := []) else Marked(old(View()))[i]
    {
      if bodyPartError.Some? {
        return Failure(bodyPartError.value);
      }
      MarkBoundaries();
      result := EncodeMarked();
    }

    /** The flags set in encode() */
    method MarkBoundaries()
      requires Valid()
      modifies bodyParts
      ensures View() == Marked(old(View()))
    {
      if bodyParts != [] {
        bodyParts[0].hasInitialBoundary := true;
        bodyParts[|bodyParts| - 1].hasFinalBoundary := true;
      }
    }

    /** The loop of encode() */
    method EncodeMarked() returns (result: Result<Bytes>)
      requires Valid()
      modifies bodyParts
      ensures result == Encoded(boundary, old(View()))
      ensures forall i | 0 <= i < |bodyParts| ::
        View()[i] == if Readable(old(View())[..i]) then old(View())[i].(stream := []) else old(View())[i]
    {
      hide Body, EncodedPart, FlaggedPart, Encoded, Readable;
      var encoded: Bytes := [];
      ghost var sources := View();
      NothingEncoded(boundary, sources);
      for k := 0 to |bodyParts|
        invariant Encoded(boundary, sources[..k]) == Success(encoded)
        invariant forall i | 0 <= i <= k :: Readable(sources[..i])
        invariant forall i | 0 <= i < |bodyParts| :: bodyParts[i].View() == if i < k then sources[i].(stream := []) else sources[i]
      {
        NextIsEncoded(boundary, sources, k);
        var encodedData := EncodePart(bodyParts[k]);
        if encodedData.Failure? {
          return encodedData;
        }
        encoded := encoded + encodedData.value;
      }
      assert sources[..|sources|] == sources;
      return Success(encoded);
    }

    /** encode(_:) */
    method EncodePart(bodyPart: BodyPart) returns (result: Result<Bytes>)
      modifies bodyPart`bodyStream
      ensures bodyPart.View() == old(bodyPart.View()).(stream := [])
      ensures Body(old(bodyPart.View())).Failure? ==> result == Body(old(bodyPart.View()))
      ensures Body(old(bodyPart.View())).Success? ==>
        result == Success(EncodedPart(boundary, FlaggedPart(old(bodyPart.View()))))
    {
      hide BoundaryData, EncodedHeaders;
      var encoded: Bytes := [];
      var initialData := BoundaryData(if bodyPart.hasInitialBoundary then Initial else Encapsulated, boundary);
      encoded := encoded + initialData;
      assert encoded == initialData;
      var headerData := EncodedHeaders(bodyPart.headers);
      encoded := encoded + headerData;
      var bodyStreamData := EncodeBodyStream(bodyPart);
      if bodyStreamData.Failure? {
        return bodyStreamData;
      }
      assert bodyStreamData == Body(old(bodyPart.View()));
      encoded := encoded + bodyStreamData.value;
      if bodyPart.hasFinalBoundary {
        encoded := encoded + BoundaryData(Final, boundary);
      }
      assert encoded + [] == encoded;
      return Success(encoded);
    }

    /** encodeBodyStream(for:); a closed stream delivers nothing more. */
    method EncodeBodyStream(bodyPart: BodyPart) returns (result: Result<Bytes>)
      modifies bodyPart`bodyStream
      ensures result == Body(old(bodyPart.View())) && bodyPart.bodyStream == []
      ensures forall n: nat | StopsAt(old(bodyPart.bodyStream), n) :: Yields(old(bodyPart.View()), n, result)
    {
      ghost var stream, source := bodyPart.bodyStream, bodyPart.View();
      forall n: nat | StopsAt(stream, n) ensures Yields(source, n, Body(source)) {
        YieldsBody(source, n, Body(source));
      }
      hide StopsAt, Yields;
      var encoded: Bytes := [];
      if Drained(stream).Success? {
        assert encoded + Drained(stream).value == Drained(stream).value;
      }
      while bodyPart.bodyStream != []
        invariant Drained(stream) == match Drained(bodyPart.bodyStream)
          case Failure(error) => Failure(error)
          case Success(later) => Success(encoded + later)
        decreases |bodyPart.bodyStream|
      {
        var read := bodyPart.bodyStream[0];
        ghost var later := Drained(bodyPart.bodyStream[1..]);
        if read.streamError.Some? {
          bodyPart.bodyStream := [];
          return Failure(InputStreamReadFailed(read.streamError.value));
        }
        if read.bytes != [] {
          bodyPart.bodyStream := bodyPart.bodyStream[1..];
          if later.Success? {
            assert encoded + (read.bytes + later.value) == encoded + read.bytes + later.value;
          }
          encoded := encoded + read.bytes;
        } else {
          break;
        }
      }
      assert encoded + [] == encoded;
      bodyPart.bodyStream := [];
      if |encoded| != bodyPart.bodyContentLength {
        return Failure(UnexpectedInputStreamLength(bodyPart.bodyContentLength, |encoded|));
      }
      return Success(encoded);
    }
  }

  /** Any uses of a form, in order */
  method Play(boundary: Bytes, uses: seq<Use>) returns (form: MultipartFormData)
    ensures fresh(form) && fresh(form.bodyParts) && form.Valid() && form.boundary == boundary
    ensures Form(form.View(), form.bodyPartError) == FormAfter(uses)
  {
    hide Marked, Readable, Encoded;
    form := new MultipartFormData(boundary);
    for k := 0 to |uses|
      invariant fresh(form) && fresh(form.bodyParts) && form.Valid() && form.boundary == boundary
      invariant Form(form.View(), form.bodyPartError) == FormAfter(uses[..k])
    {
      assert uses[..k + 1][..k] == uses[..k];
      match uses[k]
      case AppendPart(stream, length, headers) => form.Append(stream, length, headers);
      case FailPart(error) => form.SetBodyPartError(error);
      case EncodeForm =>
        ghost var sources := form.View();
        var _ := form.Encode();
        assert form.bodyPartError.None? ==> form.View() == AfterEncode(sources);
    }
    assert uses[..|uses|] == uses;
  }

  /** A part that was last in an earlier encode() hides the part behind it from a decoder. */
  lemma KeptBoundaryHides(boundary: Bytes, sources: seq<Source>, first: seq<Header>, second: seq<Header>)
    requires CR !in boundary && |sources| == 2 && sources[0].final
    requires sources[0].headers == first && sources[0].stream == [] && sources[0].length == 0
    requires sources[1] == Source(second, [], 0, false, false)
    ensures var result := Encoded(boundary, Marked(sources));
      && result.Success?
      && Decode(boundary, result.value) != Some([Part(first, []), Part(second, [])])
      && (HeadersArePlain(first) ==> Decode(boundary, result.value) == Some([Part(first, [])]))
  {
    hide Decode, EncodedParts, Encoded, HeadersArePlain;
    var fs := FlaggedParts(Marked(sources));
    RoundTrip(boundary, sources);
    assert Parts(fs)[0] == Part(first, []) && Parts(fs)[1] == Part(second, []);
    assert Parts(fs) == [Part(first, []), Part(second, [])];
    MarkedFlags(sources);
    DecodesUpToFinal(boundary, fs, 0);
    assert Parts(fs[..1]) == [Part(first, [])];
  }

  /** Parts appended after an encode() are lost: the part that was last keeps its final boundary. */
  method AppendAfterEncode(boundary: Bytes, first: seq<Header>, second: seq<Header>) returns (result: Result<Bytes>)
    requires CR !in boundary
    ensures result.Success? && Decode(boundary, result.value) != Some([Part(first, []), Part(second, [])])
    ensures HeadersArePlain(first) ==> Decode(boundary, result.value) == Some([Part(first, [])])
  {
    hide Decode, Encoded, Body, HeadersArePlain;
    var form := new MultipartFormData(boundary);
    form.Append([], 0, first);
    assert form.View() == [Source(first, [], 0, false, false)];
    var _ := form.Encode();
    assert form.View()[0].final && form.View()[0].headers == first && form.View()[0].length == 0;
    form.Append([], 0, second);
    KeptBoundaryHides(boundary, form.View(), first, second);
    result := form.Encode();
  }
}
