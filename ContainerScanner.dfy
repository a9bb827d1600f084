/**
 * The line loop of `Main`: the container is read line by line; a begin marker starts a fresh
 * section body, an end marker decodes the body gathered so far and adds the section to the
 * result dictionary, and every line that is not a begin marker (the end marker included) is
 * appended to the body with no separator.
 */
module ContainerScanner {
  import opened Types
  import opened Sequences
  import opened Dictionaries
  import opened SectionDecoder

  const BeginMarker: string := "--BEGIN ROUTEROS SUPOUT SECTION"
  const EndMarker: string := "--END ROUTEROS SUPOUT SECTION"

  /** What decoding a section body gives: its name and text, or the exception `DecodeAsync` throws. */
  type Decoder = string -> Result<(string, string)>

  /** The decoder `DecodeAsync` is, with the given foreign calls. */
  function DecoderOf(lib: Library): Decoder
  {
    sec => Decoded(sec, lib)
  }

  /** The loop's two variables: the body gathered so far and the sections decoded so far. */
  datatype Scan = Scan(section: string, result: Entries)

  /** One pass of the loop body, on one line. */
  function Step(st: Scan, line: string, decode: Decoder): Result<Scan>
  {
    if line == BeginMarker then Success(Scan("", st.result))
    else if line == EndMarker then
      var decoded :- decode(st.section);
      var result :- Add(st.result, decoded.0, decoded.1);
      Success(Scan(st.section + line, result))
    else Success(Scan(st.section + line, st.result))
  }

  /** The loop's state after the given lines, or the first exception thrown on the way. */
  function Scanned(lines: seq<string>, decode: Decoder): Result<Scan>
    decreases |lines|
  {
    if |lines| == 0 then Success(Scan("", []))
    else
      var st :- Scanned(lines[..|lines| - 1], decode);
      Step(st, lines[|lines| - 1], decode)
  }

  /** The dictionary the loop leaves, or the exception the `catch` receives. */
  function Sections(lines: seq<string>, decode: Decoder): Result<Entries>
  {
    match Scanned(lines, decode)
    case Success(st) => Success(st.result)
    case Failure(e) => Failure(e)
  }

  /** Once a line has thrown, the loop is left: the later lines change nothing. */
  lemma {:induction false} FailureStays(lines: seq<string>, n: int, decode: Decoder)
    requires 0 <= n <= |lines| && Scanned(lines[..n], decode).Failure?
    ensures Scanned(lines, decode) == Scanned(lines[..n], decode)
    decreases |lines|
  {
    if n < |lines| {
      var front := lines[..|lines| - 1];
      assert front[..n] == lines[..n];
      FailureStays(front, n, decode);
    } else {
      assert lines[..n] == lines;
    }
  }

  /** The loop of `Main`, up to the `catch`. */
  method ScanContainer(lines: seq<string>, lib: Library) returns (r: Result<Entries>)
    ensures r == Sections(lines, DecoderOf(lib))
  {
    var result: Entries := [];
    var section := "";
    var i := 0;
    while i < |lines|
      invariant 0 <= i <= |lines|
      invariant Scanned(lines[..i], DecoderOf(lib)) == Success(Scan(section, result))
    {
      var line := lines[i];
      assert lines[..i + 1][..i] == lines[..i];
      if line == BeginMarker {
        section := "";
        i := i + 1;
        continue;
      }
      if line == EndMarker {
        var decoded := DecodeSection(section, lib);
        assert decoded == DecoderOf(lib)(section);
        if decoded.Failure? {
          FailureStays(lines, i + 1, DecoderOf(lib));
          return Failure(decoded.error);
        }
        var added := Add(result, decoded.value.0, decoded.value.1);
        if added.Failure? {
          FailureStays(lines, i + 1, DecoderOf(lib));
          return Failure(added.error);
        }
        result := added.value;
      }
      section := section + line;
      i := i + 1;
    }
    assert lines[..i] == lines;
    return Success(result);
  }

  // ---------------------------------------------------------------------------------------------
  // What the loop decodes, described independently of the loop
  // ---------------------------------------------------------------------------------------------

  /** The lines after the last begin marker, joined with no separator (all of them if there is none). */
  function SinceBegin(lines: seq<string>): string
  {
    JoinedAfterLast(lines, BeginMarker)
  }

  /** The bodies decoded, one per end marker, in the order of the end markers. */
  function EndBodies(lines: seq<string>): seq<string>
    decreases |lines|
  {
    if |lines| == 0 then []
    else
      var front := lines[..|lines| - 1];
      EndBodies(front) + (if lines[|lines| - 1] == EndMarker then [SinceBegin(front)] else [])
  }

  /** Decoding the bodies one after the other and adding each section, or the first exception. */
  function Collect(bodies: seq<string>, decode: Decoder): Result<Entries>
    decreases |bodies|
  {
    if |bodies| == 0 then Success([])
    else
      var d :- Collect(bodies[..|bodies| - 1], decode);
      var decoded :- decode(bodies[|bodies| - 1]);
      Add(d, decoded.0, decoded.1)
  }

  lemma SinceBeginBegin(front: seq<string>)
    ensures SinceBegin(front + [BeginMarker]) == ""
  {
  }

  lemma SinceBeginSnoc(front: seq<string>, line: string)
    requires line != BeginMarker
    ensures SinceBegin(front + [line]) == SinceBegin(front) + line
  {
    LastIndexOfSnoc(front, line, BeginMarker);
    ConcatSnocFrom(front, line, LastIndexOf(front, BeginMarker) + 1);
  }

  /**
   * The loop's body is the concatenation since the last begin marker, and its dictionary is what
   * decoding the bodies at the end markers, in order, gives.
   */
  lemma {:induction false} ScannerMeaning(lines: seq<string>, decode: Decoder)
    ensures Sections(lines, decode) == Collect(EndBodies(lines), decode)
    ensures Scanned(lines, decode).Success? ==> Scanned(lines, decode).value.section == SinceBegin(lines)
    decreases |lines|
  {
    if |lines| > 0 {
      var front, last := lines[..|lines| - 1], lines[|lines| - 1];
      assert lines == front + [last];
      ScannerMeaning(front, decode);
      if last == BeginMarker {
        MeaningAfterBegin(front, decode);
      } else if last == EndMarker {
        MeaningAfterEnd(front, decode);
      } else {
        MeaningAfterOther(front, last, decode);
      }
    }
  }

  /** The meaning of the scan, for the lines given. */
  predicate Meaning(lines: seq<string>, decode: Decoder)
  {
    && Sections(lines, decode) == Collect(EndBodies(lines), decode)
    && (Scanned(lines, decode).Success? ==> Scanned(lines, decode).value.section == SinceBegin(lines))
  }

  lemma ScannedSnoc(front: seq<string>, line: string, decode: Decoder)
    ensures Scanned(front + [line], decode) == (var st :- Scanned(front, decode); Step(st, line, decode))
  {
    assert (front + [line])[..|front|] == front;
  }

  lemma MeaningAfterBegin(front: seq<string>, decode: Decoder)
    requires Meaning(front, decode)
    ensures Meaning(front + [BeginMarker], decode)
  {
    MarkersDiffer();
    ScannedSnoc(front, BeginMarker, decode);
    EndBodiesSnoc(front, BeginMarker);
    assert EndBodies(front + [BeginMarker]) == EndBodies(front);
    SinceBeginBegin(front);
    if Scanned(front, decode).Success? {
      var st := Scanned(front, decode).value;
      assert Scanned(front + [BeginMarker], decode) == Success(Scan("", st.result));
    }
  }

  lemma MeaningAfterEnd(front: seq<string>, decode: Decoder)
    requires Meaning(front, decode)
    ensures Meaning(front + [EndMarker], decode)
  {
    MarkersDiffer();
    ScannedSnoc(front, EndMarker, decode);
    EndBodiesSnoc(front, EndMarker);
    SinceBeginSnoc(front, EndMarker);
    CollectSnoc(EndBodies(front), SinceBegin(front), decode);
  }

  lemma MeaningAfterOther(front: seq<string>, line: string, decode: Decoder)
    requires line != BeginMarker && line != EndMarker
    requires Meaning(front, decode)
    ensures Meaning(front + [line], decode)
  {
    ScannedSnoc(front, line, decode);
    EndBodiesSnoc(front, line);
    assert EndBodies(front + [line]) == EndBodies(front);
    SinceBeginSnoc(front, line);
    if Scanned(front, decode).Success? {
      var st := Scanned(front, decode).value;
      assert Scanned(front + [line], decode) == Success(Scan(st.section + line, st.result));
    }
  }

  lemma CollectSnoc(bodies: seq<string>, body: string, decode: Decoder)
    ensures Collect(bodies + [body], decode)
         == (var d :- Collect(bodies, decode); var decoded :- decode(body); Add(d, decoded.0, decoded.1))
  {
    assert (bodies + [body])[..|bodies|] == bodies;
  }

  // ---------------------------------------------------------------------------------------------
  // Properties of the bodies
  // ---------------------------------------------------------------------------------------------

  /** Lines without a begin marker extend the body. */
  lemma SinceBeginAppend(lines: seq<string>, more: seq<string>)
    requires BeginMarker !in more
    ensures SinceBegin(lines + more) == SinceBegin(lines) + Concat(more)
  {
    ConcatAfterLast(lines, more, BeginMarker);
  }

  /**
   * When no begin marker comes between an end marker and a later line, the body at that line still
   * holds the end marker's text, after everything the earlier end marker decoded.
   */
  lemma EndTextCarried(lines: seq<string>, i: int, j: int)
    requires 0 <= i < j <= |lines| && lines[i] == EndMarker
    requires BeginMarker !in lines[i + 1..j]
    ensures SinceBegin(lines[..j]) == SinceBegin(lines[..i]) + EndMarker + Concat(lines[i + 1..j])
  {
    assert lines[..j] == lines[..i] + lines[i..j];
    MarkersDiffer();
    NotInSlice(lines, i, j, BeginMarker);
    SinceBeginAppend(lines[..i], lines[i..j]);
    ConcatFirst(lines, i, j);
  }

  lemma MarkersDiffer()
    ensures BeginMarker != EndMarker
  {
    assert |BeginMarker| != |EndMarker|;
  }

  /** One body per end marker. */
  lemma {:induction false} EndBodiesCount(lines: seq<string>)
    ensures |EndBodies(lines)| == Count(lines, EndMarker)
    decreases |lines|
  {
    if |lines| > 0 {
      EndBodiesCount(lines[..|lines| - 1]);
    }
  }

  /** The bodies of a prefix come first. */
  lemma {:induction false} EndBodiesPrefix(lines: seq<string>, n: int)
    requires 0 <= n <= |lines|
    ensures |EndBodies(lines[..n])| <= |EndBodies(lines)|
    ensures EndBodies(lines)[..|EndBodies(lines[..n])|] == EndBodies(lines[..n])
    decreases |lines|
  {
    if n == |lines| {
      assert lines[..n] == lines;
    } else {
      var front := lines[..|lines| - 1];
      assert front[..n] == lines[..n];
      EndBodiesPrefix(front, n);
      var a := EndBodies(front);
      var b := EndBodies(lines);
      assert b[..|a|] == a;
    }
  }

  /**
   * Sections are decoded in end-marker order: the end marker on line `i`, preceded by `k` end
   * markers, decodes the `k`-th body, which is the concatenation since the last begin marker.
   */
  lemma EndBodiesAt(lines: seq<string>, i: int)
    requires 0 <= i < |lines| && lines[i] == EndMarker
    ensures Count(lines[..i], EndMarker) < |EndBodies(lines)|
    ensures EndBodies(lines)[Count(lines[..i], EndMarker)] == SinceBegin(lines[..i])
  {
    assert lines[..i + 1][..i] == lines[..i];
    EndBodiesCount(lines[..i]);
    EndBodiesPrefix(lines, i + 1);
    var b := EndBodies(lines[..i + 1]);
    assert b[|EndBodies(lines[..i])|] == SinceBegin(lines[..i]);
  }

  /** Lines after the last end marker add no body. */
  lemma {:induction false} EndBodiesTrailing(lines: seq<string>, tail: seq<string>)
    requires EndMarker !in tail
    ensures EndBodies(lines + tail) == EndBodies(lines)
    decreases |tail|
  {
    if |tail| == 0 {
      assert lines + tail == lines;
    } else {
      var init := tail[..|tail| - 1];
      assert (lines + tail)[..|lines + tail| - 1] == lines + init;
      assert tail[|tail| - 1] in tail;
      EndBodiesTrailing(lines, init);
    }
  }

  /** Lines after the last end marker are never decoded. */
  lemma TrailingIgnored(lines: seq<string>, tail: seq<string>, decode: Decoder)
    requires EndMarker !in tail
    ensures Sections(lines + tail, decode) == Sections(lines, decode)
  {
    ScannerMeaning(lines + tail, decode);
    ScannerMeaning(lines, decode);
    EndBodiesTrailing(lines, tail);
  }

  // ---------------------------------------------------------------------------------------------
  // Properties of the dictionary
  // ---------------------------------------------------------------------------------------------

  /** On success there is one section per body, each the decoding of its body, with distinct names. */
  lemma {:induction false} CollectSuccess(bodies: seq<string>, decode: Decoder)
    requires Collect(bodies, decode).Success?
    ensures var d := Collect(bodies, decode).value;
      |d| == |bodies| && DistinctKeys(d)
      && forall k :: 0 <= k < |bodies| ==> decode(bodies[k]) == Success(d[k])
    decreases |bodies|
  {
    if |bodies| > 0 {
      var front := bodies[..|bodies| - 1];
      CollectSuccess(front, decode);
      var d := Collect(bodies, decode).value;
      assert d[..|front|] == Collect(front, decode).value;
      forall k | 0 <= k < |front| ensures decode(bodies[k]) == Success(d[k]) {
        assert bodies[k] == front[k] && d[k] == Collect(front, decode).value[k];
      }
    }
  }

  /** Two bodies that decode to the same name make the run fail. */
  lemma CollectDuplicate(bodies: seq<string>, decode: Decoder, i: int, j: int)
    requires 0 <= i < j < |bodies|
    requires decode(bodies[i]).Success? && decode(bodies[j]).Success?
    requires decode(bodies[i]).value.0 == decode(bodies[j]).value.0
    ensures Collect(bodies, decode).Failure?
  {
    if Collect(bodies, decode).Success? {
      CollectSuccess(bodies, decode);
      assert false;
    }
  }

  /** Conversely, when every body decodes and the names are distinct, the run succeeds. */
  lemma {:induction false} CollectOf(bodies: seq<string>, decode: Decoder, d: Entries)
    requires |d| == |bodies| && DistinctKeys(d)
    requires forall k :: 0 <= k < |bodies| ==> decode(bodies[k]) == Success(d[k])
    ensures Collect(bodies, decode) == Success(d)
    decreases |bodies|
  {
    if |bodies| > 0 {
      var n := |bodies| - 1;
      var front, e := d[..n], d[n];
      forall k | 0 <= k < n ensures decode(bodies[..n][k]) == Success(front[k]) {
        assert bodies[..n][k] == bodies[k];
      }
      CollectOf(bodies[..n], decode, front);
      assert !ContainsKey(front, e.0) by {
        forall p | 0 <= p < n ensures front[p].0 != e.0 {
          assert d[p] == front[p];
        }
      }
      assert front + [e] == d;
    }
  }

  /**
   * On failure, it is the first body that either does not decode or decodes to a name already
   * present that throws, and the error is that body's.
   */
  lemma {:induction false} CollectFailure(bodies: seq<string>, decode: Decoder)
    requires Collect(bodies, decode).Failure?
    ensures exists k :: 0 <= k < |bodies| && FirstBad(bodies, decode, k, Collect(bodies, decode).error)
    decreases |bodies|
  {
    var n := |bodies| - 1;
    var front := bodies[..n];
    if Collect(front, decode).Failure? {
      CollectFailure(front, decode);
      var k :| 0 <= k < n && FirstBad(front, decode, k, Collect(front, decode).error);
      assert front[..k] == bodies[..k] && front[k] == bodies[k];
      assert Collect(bodies, decode).error == Collect(front, decode).error;
      assert FirstBad(bodies, decode, k, Collect(bodies, decode).error);
    } else {
      assert bodies[..n] == front;
      assert FirstBad(bodies, decode, n, Collect(bodies, decode).error);
    }
  }

  /** Body `k` is where decoding and adding first throws `e`. */
  predicate FirstBad(bodies: seq<string>, decode: Decoder, k: int, e: Error)
    requires 0 <= k < |bodies|
  {
    Collect(bodies[..k], decode).Success?
    && match decode(bodies[k])
       case Failure(err) => e == err
       case Success(sec) => e == DuplicateKey(sec.0) && ContainsKey(Collect(bodies[..k], decode).value, sec.0)
  }

  /** A small container: the second section's body still holds the first end marker. */
  lemma ExampleBodies(a: string, b: string, c: string)
    requires a != BeginMarker && a != EndMarker
    requires b != BeginMarker && b != EndMarker
    requires c != BeginMarker && c != EndMarker
    ensures EndBodies([BeginMarker, a, b, EndMarker, c, EndMarker]) == [a + b, a + b + EndMarker + c]
  {
    var l3 := ExampleOpening(a, b);
    var l4 := l3 + [EndMarker];
    var l5 := l4 + [c];
    MarkersDiffer();
    EndBodiesSnoc(l3, EndMarker);
    SinceBeginSnoc(l3, EndMarker);
    EndBodiesSnoc(l4, c);
    SinceBeginSnoc(l4, c);
    EndBodiesSnoc(l5, EndMarker);
    assert l5 + [EndMarker] == [BeginMarker, a, b, EndMarker, c, EndMarker];
  }

  /** The first three lines of the example: a begin marker and two body lines. */
  lemma ExampleOpening(a: string, b: string) returns (l3: seq<string>)
    requires a != BeginMarker && a != EndMarker
    requires b != BeginMarker && b != EndMarker
    ensures l3 == [BeginMarker, a, b] && EndBodies(l3) == [] && SinceBegin(l3) == a + b
  {
    var l1 := [BeginMarker];
    var l2 := l1 + [a];
    l3 := l2 + [b];
    assert EndBodies(l1) == [] && SinceBegin(l1) == "" by {
      SinceBeginBegin([]);
      MarkersDiffer();
      EndBodiesSnoc([], BeginMarker);
      assert [] + [BeginMarker] == l1;
    }
    EndBodiesSnoc(l1, a);
    SinceBeginSnoc(l1, a);
    EndBodiesSnoc(l2, b);
    SinceBeginSnoc(l2, b);
  }

  lemma EndBodiesSnoc(front: seq<string>, line: string)
    ensures EndBodies(front + [line]) == EndBodies(front) + (if line == EndMarker then [SinceBegin(front)] else [])
  {
    assert (front + [line])[..|front|] == front;
  }

  // ---------------------------------------------------------------------------------------------
  // Round trip through a whole container
  // ---------------------------------------------------------------------------------------------

  /** A line of data symbols is neither marker: both markers start with `-`. */
  lemma NotMarker(line: string)
    requires forall k :: 0 <= k < |line| ==> IsDataSymbol(line[k])
    ensures line != BeginMarker && line != EndMarker
  {
    assert BeginMarker[0] == '-' && EndMarker[0] == '-';
    assert !IsDataSymbol('-');
    if |line| > 0 {
      assert IsDataSymbol(line[0]);
    }
  }

  /** A container holding the given bodies, each on its own line between a begin and an end marker. */
  function Wrap(bodies: seq<string>): seq<string>
    decreases |bodies|
  {
    if |bodies| == 0 then []
    else Wrap(bodies[..|bodies| - 1]) + [BeginMarker, bodies[|bodies| - 1], EndMarker]
  }

  /** The scanner hands each framed body to the decoder unchanged, in order. */
  lemma {:induction false} WrapBodies(bodies: seq<string>)
    requires forall k :: 0 <= k < |bodies| ==> bodies[k] != BeginMarker && bodies[k] != EndMarker
    ensures EndBodies(Wrap(bodies)) == bodies
    decreases |bodies|
  {
    if |bodies| > 0 {
      var front := bodies[..|bodies| - 1];
      NoMarkerFront(bodies);
      WrapBodies(front);
      WrapStep(bodies);
    }
  }

  lemma NoMarkerFront(bodies: seq<string>)
    requires |bodies| > 0
    requires forall k :: 0 <= k < |bodies| ==> bodies[k] != BeginMarker && bodies[k] != EndMarker
    ensures var front := bodies[..|bodies| - 1];
      forall k :: 0 <= k < |front| ==> front[k] != BeginMarker && front[k] != EndMarker
  {
  }

  lemma WrapStep(bodies: seq<string>)
    requires |bodies| > 0
    requires bodies[|bodies| - 1] != BeginMarker && bodies[|bodies| - 1] != EndMarker
    requires EndBodies(Wrap(bodies[..|bodies| - 1])) == bodies[..|bodies| - 1]
    ensures EndBodies(Wrap(bodies)) == bodies
  {
    WrapSnoc(bodies);
    FrontLast(bodies);
  }

  /** The last framed body is added after those of the bodies before it. */
  lemma WrapSnoc(bodies: seq<string>)
    requires |bodies| > 0
    requires bodies[|bodies| - 1] != BeginMarker && bodies[|bodies| - 1] != EndMarker
    ensures EndBodies(Wrap(bodies)) == EndBodies(Wrap(bodies[..|bodies| - 1])) + [bodies[|bodies| - 1]]
  {
    FrameStep(Wrap(bodies[..|bodies| - 1]), bodies[|bodies| - 1]);
  }

  /** One framed body adds exactly that body. */
  lemma FrameStep(w: seq<string>, body: string)
    requires body != BeginMarker && body != EndMarker
    ensures EndBodies(w + [BeginMarker, body, EndMarker]) == EndBodies(w) + [body]
  {
    var w1 := w + [BeginMarker];
    var w2 := w1 + [body];
    assert w + [BeginMarker, body, EndMarker] == w2 + [EndMarker];
    MarkersDiffer();
    EndBodiesSnoc(w, BeginMarker);
    assert EndBodies(w1) == EndBodies(w);
    EndBodiesSnoc(w1, body);
    assert EndBodies(w2) == EndBodies(w);
    SinceBeginBegin(w);
    SinceBeginSnoc(w1, body);
    assert SinceBegin(w2) == "" + body == body;
    EndBodiesSnoc(w2, EndMarker);
  }

  /** The bodies `Pack` makes for the sections, given as (name, payload) byte pairs. */
  function PackedBodies(sections: seq<(seq<byte>, seq<byte>)>): (bodies: seq<string>)
    ensures |bodies| == |sections|
  {
    seq(|sections|, k requires 0 <= k < |sections| => Pack(sections[k].0 + [0] + sections[k].1))
  }

  /** The entries the sections should give: each name, and the text its payload inflates to. */
  function Expected(sections: seq<(seq<byte>, seq<byte>)>, raws: seq<seq<byte>>, lib: Library): (d: Entries)
    requires |raws| == |sections|
    ensures |d| == |sections|
  {
    seq(|sections|, k requires 0 <= k < |sections| => (lib.utf8(sections[k].0), lib.utf8(raws[k])))
  }

  /**
   * Packing sections, framing each between the markers, and scanning the container gives back
   * the sections, in order: each name, and the text its payload inflates to. The names must hold
   * no zero byte and decode to distinct strings, and each payload, followed by the zero bytes
   * that fill its last group, must inflate.
   */
  lemma ContainerRoundTrip(sections: seq<(seq<byte>, seq<byte>)>, raws: seq<seq<byte>>, lib: Library)
    requires |raws| == |sections|
    requires forall k :: 0 <= k < |sections| ==> 0 !in sections[k].0
    requires forall k :: 0 <= k < |sections| ==>
      lib.inflate(sections[k].1 + Padding(sections[k].0 + [0] + sections[k].1)) == Some(raws[k])
    requires forall i, j :: 0 <= i < j < |sections| ==> lib.utf8(sections[i].0) != lib.utf8(sections[j].0)
    ensures Sections(Wrap(PackedBodies(sections)), DecoderOf(lib)) == Success(Expected(sections, raws, lib))
  {
    var bodies := PackedBodies(sections);
    var d := Expected(sections, raws, lib);
    forall k | 0 <= k < |bodies| ensures bodies[k] != BeginMarker && bodies[k] != EndMarker {
      PackData(sections[k].0 + [0] + sections[k].1);
      NotMarker(bodies[k]);
    }
    forall k | 0 <= k < |bodies| ensures DecoderOf(lib)(bodies[k]) == Success(d[k]) {
      DecodedRoundTrip(sections[k].0, sections[k].1, raws[k], lib);
    }
    assert DistinctKeys(d);
    WrapBodies(bodies);
    ScannerMeaning(Wrap(bodies), DecoderOf(lib));
    CollectOf(bodies, DecoderOf(lib), d);
  }

  /** A container with two sections of distinct names gives exactly those two entries, in order. */
  lemma TwoSections(a: (seq<byte>, seq<byte>), rawA: seq<byte>, b: (seq<byte>, seq<byte>), rawB: seq<byte>, lib: Library)
    requires 0 !in a.0 && 0 !in b.0 && lib.utf8(a.0) != lib.utf8(b.0)
    requires lib.inflate(a.1 + Padding(a.0 + [0] + a.1)) == Some(rawA)
    requires lib.inflate(b.1 + Padding(b.0 + [0] + b.1)) == Some(rawB)
    ensures Sections([BeginMarker, Pack(a.0 + [0] + a.1), EndMarker, BeginMarker, Pack(b.0 + [0] + b.1), EndMarker],
                     DecoderOf(lib))
         == Success([(lib.utf8(a.0), lib.utf8(rawA)), (lib.utf8(b.0), lib.utf8(rawB))])
  {
    ContainerRoundTrip([a, b], [rawA, rawB], lib);
    PackedTwo(a, b);
    ExpectedTwo(a, rawA, b, rawB, lib);
    WrapTwo(Pack(a.0 + [0] + a.1), Pack(b.0 + [0] + b.1));
  }

  lemma PackedTwo(a: (seq<byte>, seq<byte>), b: (seq<byte>, seq<byte>))
    ensures PackedBodies([a, b]) == [Pack(a.0 + [0] + a.1), Pack(b.0 + [0] + b.1)]
  {
  }

  lemma ExpectedTwo(a: (seq<byte>, seq<byte>), rawA: seq<byte>, b: (seq<byte>, seq<byte>), rawB: seq<byte>, lib: Library)
    ensures Expected([a, b], [rawA, rawB], lib) == [(lib.utf8(a.0), lib.utf8(rawA)), (lib.utf8(b.0), lib.utf8(rawB))]
  {
  }

  lemma WrapTwo(x: string, y: string)
    ensures Wrap([x, y]) == [BeginMarker, x, EndMarker, BeginMarker, y, EndMarker]
  {
    assert [x, y][..1] == [x] && [x][..0] == [];
    assert Wrap([x]) == [BeginMarker, x, EndMarker];
    assert Wrap([x, y]) == Wrap([x]) + [BeginMarker, y, EndMarker];
  }
}
