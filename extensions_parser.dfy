/** The parser of the `extensions<0..2^16-1>` block of a TLS hello message
    (section 7.4.1.4 of RFC 5246): a two-byte block length, then entries of
    a two-byte extension type, a two-byte extension length and the body.
    The parser walks the block with a cursor into the message buffer, keeps
    the extensions whose type it knows and hands their bodies to the parser
    of that extension.

    The per-extension parsers are not part of this model: each is a
    function value that either throws or returns the extension it built and
    the number of bytes it moved the cursor forward. */
module ExtensionsParsing {
  import opened Common

  datatype ConnectionEnd = Client | Server

  /** BinaryHelper.Int16FromBytes: the big-endian, two's-complement 16-bit
      number the two bytes spell. */
  function Int16FromBytes(hi: byte, lo: byte): (v: int)
    ensures -32768 <= v < 32768
    ensures (v + 65536) % 65536 == hi * 256 + lo
  {
    var u := hi * 256 + lo;
    if u < 32768 then u else u - 65536
  }

  /** The unsigned 16-bit number the two bytes spell, as section 7.4.1.4
      declares the block and entry lengths. */
  function UInt16FromBytes(hi: byte, lo: byte): (v: nat)
    ensures v < 65536
    ensures v == Int16FromBytes(hi, lo) || v == Int16FromBytes(hi, lo) + 65536
  {
    hi * 256 + lo
  }

  /** One entry of the known-extensions list: its type and its Parse, which
      receives the buffer, the cursor at the body, the entry's length and
      the connection end. */
  datatype KnownExtension<E> =
    KnownExtension(extType: int, parse: (seq<byte>, int, int, ConnectionEnd) -> Result<(E, nat)>)

  /** What AddExtensionToResult does: the first known extension of the
      entry's type parsed the body (new cursor, result with it appended),
      no known extension has that type, or that extension's Parse threw. */
  datatype Step<E> = Added(cursor: int, extensions: seq<E>) | NotFound | Raised(ex: Exception)

  /** The index of the first known extension of type `extType`, or
      |known| when there is none. */
  function FirstKnownIndex<E>(known: seq<KnownExtension<E>>, extType: int): (k: nat)
    ensures k <= |known|
    ensures k < |known| ==> known[k].extType == extType
    ensures forall j :: 0 <= j < k ==> known[j].extType != extType
  {
    if |known| == 0 then 0
    else if known[0].extType == extType then 0
    else 1 + FirstKnownIndex(known[1..], extType)
  }

  /** The effect of AddExtensionToResult, as a value. */
  function AddStep<E>(buffer: seq<byte>, cursor: int, extLen: int, end: ConnectionEnd,
                      known: seq<KnownExtension<E>>, extType: int, result: seq<E>): Step<E>
  {
    var k := FirstKnownIndex(known, extType);
    if k == |known| then NotFound
    else match known[k].parse(buffer, cursor, extLen, end)
      case Ok((x, n)) => Added(cursor + n, result + [x])
      case Throws(e) => Raised(e)
  }

  /** AddExtensionToResult: the foreach over the known extensions. The first
      one whose type matches parses the body and its extension is appended;
      when none matches, nothing changes and false is returned. */
  method AddExtensionToResult<E>(buffer: seq<byte>, currentLen: int, extLen: int, end: ConnectionEnd,
                                 known: seq<KnownExtension<E>>, extType: int, result: seq<E>)
    returns (r: Step<E>)
    ensures r.NotFound? <==> forall j :: 0 <= j < |known| ==> known[j].extType != extType
    ensures r.Added? ==> exists x, n: nat ::
              && known[FirstKnownIndex(known, extType)].parse(buffer, currentLen, extLen, end) == Ok((x, n))
              && r == Added(currentLen + n, result + [x])
    ensures r == AddStep(buffer, currentLen, extLen, end, known, extType, result)
  {
    for i := 0 to |known|
      invariant forall j :: 0 <= j < i ==> known[j].extType != extType
    {
      if known[i].extType == extType {
        assert FirstKnownIndex(known, extType) == i;
        match known[i].parse(buffer, currentLen, extLen, end)
        case Ok((x, n)) =>
          return Added(currentLen + n, result + [x]);
        case Throws(e) =>
          return Raised(e);
      }
    }
    return NotFound;
  }

  /** The loop of Parse from `cursor`, with the extensions found so far in
      `extsList`, for a block that ends at `blockEnd` and is `extsLen`
      bytes long. An entry whose type no known extension has moves the
      cursor by the whole block length `extsLen`, as ExtensionsParser.cs does
      at line 44. */
  function ParseFrom<E>(buffer: seq<byte>, blockEnd: int, extsLen: int, cursor: int,
                        known: seq<KnownExtension<E>>, end: ConnectionEnd, extsList: seq<E>): (r: Result<(seq<E>, int)>)
    requires blockEnd - extsLen <= cursor
    ensures r.Ok? ==> r.value.1 >= blockEnd
    decreases blockEnd - cursor
  {
    if cursor >= blockEnd then Ok((extsList, cursor))
    else if cursor < 0 || |buffer| < cursor + 4 then Throws(IndexOutOfRange)
    else
      var extType := Int16FromBytes(buffer[cursor], buffer[cursor + 1]);
      var extLen := Int16FromBytes(buffer[cursor + 2], buffer[cursor + 3]);
      match AddStep(buffer, cursor + 4, extLen, end, known, extType, extsList)
      case Raised(e) => Throws(e)
      case Added(c, xs) => ParseFrom(buffer, blockEnd, extsLen, c, known, end, xs)
      case NotFound => ParseFrom(buffer, blockEnd, extsLen, cursor + 4 + extsLen, known, end, extsList)
  }

  /** What Parse returns for a block whose length field is at `currentLen`:
      the extensions and the final cursor, or the exception. */
  function ParseResult<E>(buffer: seq<byte>, currentLen: int, known: seq<KnownExtension<E>>,
                          end: ConnectionEnd): (r: Result<(seq<E>, int)>)
    ensures currentLen < 0 || |buffer| < currentLen + 2 ==> r == Throws(IndexOutOfRange)
    ensures r.Ok? ==> && 0 <= currentLen && currentLen + 2 <= |buffer|
                      && r.value.1 >= currentLen + 2 + Int16FromBytes(buffer[currentLen], buffer[currentLen + 1])
  {
    if currentLen < 0 || |buffer| < currentLen + 2 then Throws(IndexOutOfRange)
    else
      var extsLen := Int16FromBytes(buffer[currentLen], buffer[currentLen + 1]);
      ParseFrom(buffer, currentLen + 2 + extsLen, extsLen, currentLen + 2, known, end, [])
  }

  /** ExtensionsParser.Parse, with an unknown entry skipped by its own
      length (ParseResult models the skip as written): `currentLen` is the
      `ref` cursor going in, and the cursor coming out is the second
      component of the result. */
  method Parse<E>(buffer: seq<byte>, currentLen: int, known: seq<KnownExtension<E>>, end: ConnectionEnd)
    returns (r: Result<(seq<E>, int)>)
    ensures r == IntendedParseResult(buffer, currentLen, known, end)
  {
    if currentLen < 0 || |buffer| < currentLen + 2 {
      return Throws(IndexOutOfRange);
    }
    var cursor := currentLen;
    var extsLen := Int16FromBytes(buffer[cursor], buffer[cursor + 1]);
    cursor := cursor + 2;
    var extOffsetEnd := cursor + extsLen;
    var extsList: seq<E> := [];
    while cursor < extOffsetEnd
      invariant IntendedParseFrom(buffer, extOffsetEnd, cursor, known, end, extsList)
                == IntendedParseResult(buffer, currentLen, known, end)
      decreases extOffsetEnd - cursor
    {
      if cursor < 0 || |buffer| < cursor + 4 {
        return Throws(IndexOutOfRange);
      }
      var entry := cursor;
      var extType := Int16FromBytes(buffer[entry], buffer[entry + 1]);
      var extLen := Int16FromBytes(buffer[entry + 2], buffer[entry + 3]);
      cursor := entry + 4;
      var step := AddExtensionToResult(buffer, cursor, extLen, end, known, extType, extsList);
      match step
      case Raised(e) =>
        return Throws(e);
      case Added(c, xs) =>
        cursor, extsList := c, xs;
      case NotFound =>
        cursor := cursor + UInt16FromBytes(buffer[entry + 2], buffer[entry + 3]);
    }
    return Ok((extsList, cursor));
  }

  /** A block whose length field reads 0 (or negative: a length of 0x8000
      or more read as a signed number) gives no extensions, and the cursor
      moves past the length field only. */
  lemma EmptyBlock<E>(buffer: seq<byte>, currentLen: int, known: seq<KnownExtension<E>>, end: ConnectionEnd)
    requires 0 <= currentLen && currentLen + 2 <= |buffer|
    requires Int16FromBytes(buffer[currentLen], buffer[currentLen + 1]) <= 0
    ensures ParseResult(buffer, currentLen, known, end) == Ok(([], currentLen + 2))
  {
  }

  /** When the loop finishes, the cursor has reached or passed the block
      end, it has not moved backwards, and the extensions found before are
      a prefix of the result: entries are kept in wire order. */
  lemma {:induction false} ParseFromBounds<E>(buffer: seq<byte>, blockEnd: int, extsLen: int, cursor: int,
                                              known: seq<KnownExtension<E>>, end: ConnectionEnd, extsList: seq<E>)
    requires blockEnd - extsLen <= cursor
    requires ParseFrom(buffer, blockEnd, extsLen, cursor, known, end, extsList).Ok?
    ensures var (xs, c) := ParseFrom(buffer, blockEnd, extsLen, cursor, known, end, extsList).value;
      && c >= blockEnd && c >= cursor
      && |xs| >= |extsList| && xs[..|extsList|] == extsList
    decreases blockEnd - cursor
  {
    if cursor < blockEnd {
      var extType := Int16FromBytes(buffer[cursor], buffer[cursor + 1]);
      var extLen := Int16FromBytes(buffer[cursor + 2], buffer[cursor + 3]);
      match AddStep(buffer, cursor + 4, extLen, end, known, extType, extsList)
      case Added(c, xs) =>
        ParseFromBounds(buffer, blockEnd, extsLen, c, known, end, xs);
        var (ys, _) := ParseFrom(buffer, blockEnd, extsLen, c, known, end, xs).value;
        assert ys[..|extsList|] == ys[..|xs|][..|extsList|];
      case NotFound =>
        ParseFromBounds(buffer, blockEnd, extsLen, cursor + 4 + extsLen, known, end, extsList);
    }
  }

  /** A parse that succeeds leaves the cursor at or past the block end. */
  lemma ParseEndsPastBlock<E>(buffer: seq<byte>, currentLen: int, known: seq<KnownExtension<E>>, end: ConnectionEnd)
    requires ParseResult(buffer, currentLen, known, end).Ok?
    ensures var extsLen := Int16FromBytes(buffer[currentLen], buffer[currentLen + 1]);
            ParseResult(buffer, currentLen, known, end).value.1 >= currentLen + 2 + extsLen
    ensures ParseResult(buffer, currentLen, known, end).value.1 >= currentLen + 2
  {
    var extsLen := Int16FromBytes(buffer[currentLen], buffer[currentLen + 1]);
    ParseFromBounds(buffer, currentLen + 2 + extsLen, extsLen, currentLen + 2, known, end, []);
  }

  /** An entry whose type no known extension has ends the parse: the
      extensions found so far are the result, and the cursor is left at
      least 4 bytes past the block end, because it moved by the block
      length instead of the entry's length. No later entry is parsed. */
  lemma UnknownEntryEndsParse<E>(buffer: seq<byte>, blockEnd: int, extsLen: int, cursor: int,
                                 known: seq<KnownExtension<E>>, end: ConnectionEnd, extsList: seq<E>)
    requires blockEnd - extsLen <= cursor < blockEnd
    requires 0 <= cursor && cursor + 4 <= |buffer|
    requires forall j :: 0 <= j < |known| ==> known[j].extType != Int16FromBytes(buffer[cursor], buffer[cursor + 1])
    ensures ParseFrom(buffer, blockEnd, extsLen, cursor, known, end, extsList) == Ok((extsList, cursor + 4 + extsLen))
    ensures cursor + 4 + extsLen >= blockEnd + 4
  {
    var extType := Int16FromBytes(buffer[cursor], buffer[cursor + 1]);
    assert FirstKnownIndex(known, extType) == |known|;
  }

  /** A header that runs past the end of the buffer throws. */
  lemma TruncatedEntryThrows<E>(buffer: seq<byte>, blockEnd: int, extsLen: int, cursor: int,
                                known: seq<KnownExtension<E>>, end: ConnectionEnd, extsList: seq<E>)
    requires blockEnd - extsLen <= cursor < blockEnd
    requires |buffer| < cursor + 4
    ensures ParseFrom(buffer, blockEnd, extsLen, cursor, known, end, extsList) == Throws(IndexOutOfRange)
  {
  }

  /** The loop as section 7.4.1.4 intends it: an entry of an unknown type
      is skipped by its own length, read as the unsigned number the
      section declares. Everything else is as in ParseFrom. */
  function IntendedParseFrom<E>(buffer: seq<byte>, blockEnd: int, cursor: int,
                                known: seq<KnownExtension<E>>, end: ConnectionEnd, extsList: seq<E>): Result<(seq<E>, int)>
    decreases blockEnd - cursor
  {
    if cursor >= blockEnd then Ok((extsList, cursor))
    else if cursor < 0 || |buffer| < cursor + 4 then Throws(IndexOutOfRange)
    else
      var extType := Int16FromBytes(buffer[cursor], buffer[cursor + 1]);
      var extLen := Int16FromBytes(buffer[cursor + 2], buffer[cursor + 3]);
      match AddStep(buffer, cursor + 4, extLen, end, known, extType, extsList)
      case Raised(e) => Throws(e)
      case Added(c, xs) => IntendedParseFrom(buffer, blockEnd, c, known, end, xs)
      case NotFound =>
        IntendedParseFrom(buffer, blockEnd, cursor + 4 + UInt16FromBytes(buffer[cursor + 2], buffer[cursor + 3]),
                          known, end, extsList)
  }

  /** What Parse returns with the intended skip. */
  function IntendedParseResult<E>(buffer: seq<byte>, currentLen: int, known: seq<KnownExtension<E>>,
                                  end: ConnectionEnd): Result<(seq<E>, int)>
  {
    if currentLen < 0 || |buffer| < currentLen + 2 then Throws(IndexOutOfRange)
    else
      var extsLen := Int16FromBytes(buffer[currentLen], buffer[currentLen + 1]);
      IntendedParseFrom(buffer, currentLen + 2 + extsLen, currentLen + 2, known, end, [])
  }

  /** With the intended skip, the loop still ends at or past the block end
      without moving the cursor back, and keeps the extensions in wire
      order. */
  lemma {:induction false} IntendedParseFromBounds<E>(buffer: seq<byte>, blockEnd: int, cursor: int,
                                                      known: seq<KnownExtension<E>>, end: ConnectionEnd, extsList: seq<E>)
    requires IntendedParseFrom(buffer, blockEnd, cursor, known, end, extsList).Ok?
    ensures var (xs, c) := IntendedParseFrom(buffer, blockEnd, cursor, known, end, extsList).value;
      && c >= blockEnd && c >= cursor
      && |xs| >= |extsList| && xs[..|extsList|] == extsList
    decreases blockEnd - cursor
  {
    if cursor < blockEnd {
      var extType := Int16FromBytes(buffer[cursor], buffer[cursor + 1]);
      var extLen := Int16FromBytes(buffer[cursor + 2], buffer[cursor + 3]);
      match AddStep(buffer, cursor + 4, extLen, end, known, extType, extsList)
      case Added(c, xs) =>
        IntendedParseFromBounds(buffer, blockEnd, c, known, end, xs);
        var (ys, _) := IntendedParseFrom(buffer, blockEnd, c, known, end, xs).value;
        assert ys[..|extsList|] == ys[..|xs|][..|extsList|];
      case NotFound =>
        IntendedParseFromBounds(buffer, blockEnd, cursor + 4 + UInt16FromBytes(buffer[cursor + 2], buffer[cursor + 3]),
                                known, end, extsList);
    }
  }

  /** The entry header at `c` lies in the buffer and its type is one a
      known extension has. */
  predicate KnownTypeAt<E>(buffer: seq<byte>, c: int, known: seq<KnownExtension<E>>)
  {
    0 <= c && c + 4 <= |buffer| && FirstKnownIndex(known, Int16FromBytes(buffer[c], buffer[c + 1])) < |known|
  }

  /** The entry whose header is at `c` has a known type, and the Parse of
      the first known extension of that type, given the entry's body and
      length, builds `x`. */
  ghost predicate EntryParsesTo<E>(buffer: seq<byte>, c: int, known: seq<KnownExtension<E>>, end: ConnectionEnd, x: E)
  {
    KnownTypeAt(buffer, c, known) &&
    var k := FirstKnownIndex(known, Int16FromBytes(buffer[c], buffer[c + 1]));
    var p := known[k].parse(buffer, c + 4, Int16FromBytes(buffer[c + 2], buffer[c + 3]), end);
    p.Ok? && p.value.0 == x
  }

  /** `x` was built from an entry whose header lies in [from, blockEnd). */
  ghost predicate BuiltFromEntry<E>(buffer: seq<byte>, from: int, blockEnd: int, known: seq<KnownExtension<E>>,
                                    end: ConnectionEnd, x: E)
  {
    exists c :: from <= c < blockEnd && EntryParsesTo(buffer, c, known, end, x)
  }

  /** Each of `xs[start..]` was built from an entry whose header lies in
      [from, blockEnd). */
  ghost predicate BuiltFromEntries<E>(buffer: seq<byte>, from: int, blockEnd: int, known: seq<KnownExtension<E>>,
                                      end: ConnectionEnd, xs: seq<E>, start: nat)
  {
    forall i :: start <= i < |xs| ==> BuiltFromEntry(buffer, from, blockEnd, known, end, xs[i])
  }

  /** Every extension the loop appends was built by a known extension's
      Parse from an entry whose header lies between the starting cursor
      and the block end. */
  lemma {:induction false} ParseFromContents<E>(buffer: seq<byte>, blockEnd: int, extsLen: int, cursor: int,
                                                known: seq<KnownExtension<E>>, end: ConnectionEnd, extsList: seq<E>)
    requires blockEnd - extsLen <= cursor
    requires ParseFrom(buffer, blockEnd, extsLen, cursor, known, end, extsList).Ok?
    ensures BuiltFromEntries(buffer, cursor, blockEnd, known, end,
                             ParseFrom(buffer, blockEnd, extsLen, cursor, known, end, extsList).value.0, |extsList|)
    decreases blockEnd - cursor
  {
    if cursor < blockEnd {
      var extType := Int16FromBytes(buffer[cursor], buffer[cursor + 1]);
      var extLen := Int16FromBytes(buffer[cursor + 2], buffer[cursor + 3]);
      match AddStep(buffer, cursor + 4, extLen, end, known, extType, extsList)
      case Added(c, ys) =>
        var k := FirstKnownIndex(known, extType);
        var (x, n) := known[k].parse(buffer, cursor + 4, extLen, end).value;
        assert c == cursor + 4 + n && ys == extsList + [x];
        ParseFromContents(buffer, blockEnd, extsLen, c, known, end, ys);
        ParseFromBounds(buffer, blockEnd, extsLen, c, known, end, ys);
        assert ParseFrom(buffer, blockEnd, extsLen, cursor, known, end, extsList) == ParseFrom(buffer, blockEnd, extsLen, c, known, end, ys);
        var xs := ParseFrom(buffer, blockEnd, extsLen, c, known, end, ys).value.0;
        forall i | |extsList| <= i < |xs|
          ensures BuiltFromEntry(buffer, cursor, blockEnd, known, end, xs[i])
        {
          if i == |extsList| {
            assert xs[i] == ys[|extsList|];
            assert EntryParsesTo(buffer, cursor, known, end, xs[i]);
          } else {
            var c1 :| c <= c1 < blockEnd && EntryParsesTo(buffer, c1, known, end, xs[i]);
          }
        }
      case NotFound =>
        ParseFromContents(buffer, blockEnd, extsLen, cursor + 4 + extsLen, known, end, extsList);
    }
  }

  /** A block none of whose positions holds an entry header of a known type
      adds no extension. */
  lemma {:induction false} NoKnownEntryAddsNothing<E>(buffer: seq<byte>, blockEnd: int, extsLen: int, cursor: int,
                                   known: seq<KnownExtension<E>>, end: ConnectionEnd, extsList: seq<E>)
    requires blockEnd - extsLen <= cursor
    requires ParseFrom(buffer, blockEnd, extsLen, cursor, known, end, extsList).Ok?
    requires forall c :: cursor <= c < blockEnd ==> !KnownTypeAt(buffer, c, known)
    ensures ParseFrom(buffer, blockEnd, extsLen, cursor, known, end, extsList).value.0 == extsList
    decreases blockEnd - cursor
  {
    if cursor < blockEnd {
      assert !KnownTypeAt(buffer, cursor, known);
      NoKnownEntryAddsNothing(buffer, blockEnd, extsLen, cursor + 4 + extsLen, known, end, extsList);
    }
  }

  /** With the intended skip too, every extension appended was built by a
      known extension's Parse from an entry whose header lies between the
      starting cursor and the block end. */
  lemma {:induction false} IntendedParseFromContents<E>(buffer: seq<byte>, blockEnd: int, cursor: int,
                                                        known: seq<KnownExtension<E>>, end: ConnectionEnd, extsList: seq<E>)
    requires IntendedParseFrom(buffer, blockEnd, cursor, known, end, extsList).Ok?
    ensures BuiltFromEntries(buffer, cursor, blockEnd, known, end,
                             IntendedParseFrom(buffer, blockEnd, cursor, known, end, extsList).value.0, |extsList|)
    decreases blockEnd - cursor
  {
    if cursor < blockEnd {
      var extType := Int16FromBytes(buffer[cursor], buffer[cursor + 1]);
      var extLen := Int16FromBytes(buffer[cursor + 2], buffer[cursor + 3]);
      match AddStep(buffer, cursor + 4, extLen, end, known, extType, extsList)
      case Added(c, ys) =>
        var k := FirstKnownIndex(known, extType);
        var (x, n) := known[k].parse(buffer, cursor + 4, extLen, end).value;
        assert c == cursor + 4 + n && ys == extsList + [x];
        IntendedParseFromContents(buffer, blockEnd, c, known, end, ys);
        IntendedParseFromBounds(buffer, blockEnd, c, known, end, ys);
        assert IntendedParseFrom(buffer, blockEnd, cursor, known, end, extsList) == IntendedParseFrom(buffer, blockEnd, c, known, end, ys);
        var xs := IntendedParseFrom(buffer, blockEnd, c, known, end, ys).value.0;
        forall i | |extsList| <= i < |xs|
          ensures BuiltFromEntry(buffer, cursor, blockEnd, known, end, xs[i])
        {
          if i == |extsList| {
            assert xs[i] == ys[|extsList|];
            assert EntryParsesTo(buffer, cursor, known, end, xs[i]);
          } else {
            var c1 :| c <= c1 < blockEnd && EntryParsesTo(buffer, c1, known, end, xs[i]);
          }
        }
      case NotFound =>
        IntendedParseFromContents(buffer, blockEnd, cursor + 4 + UInt16FromBytes(buffer[cursor + 2], buffer[cursor + 3]),
                                  known, end, extsList);
    }
  }

  /** With the intended skip, a block none of whose positions holds an
      entry header of a known type adds no extension. */
  lemma {:induction false} IntendedNoKnownEntryAddsNothing<E>(buffer: seq<byte>, blockEnd: int, cursor: int,
                                           known: seq<KnownExtension<E>>, end: ConnectionEnd, extsList: seq<E>)
    requires IntendedParseFrom(buffer, blockEnd, cursor, known, end, extsList).Ok?
    requires forall c :: cursor <= c < blockEnd ==> !KnownTypeAt(buffer, c, known)
    ensures IntendedParseFrom(buffer, blockEnd, cursor, known, end, extsList).value.0 == extsList
    decreases blockEnd - cursor
  {
    if cursor < blockEnd {
      assert !KnownTypeAt(buffer, cursor, known);
      IntendedNoKnownEntryAddsNothing(buffer, blockEnd, cursor + 4 + UInt16FromBytes(buffer[cursor + 2], buffer[cursor + 3]),
                                      known, end, extsList);
    }
  }

  /** With the intended skip, an entry of an unknown type is passed over and
      parsing continues with the entry right after it. */
  lemma IntendedSkipsUnknownEntry<E>(buffer: seq<byte>, blockEnd: int, cursor: int,
                                     known: seq<KnownExtension<E>>, end: ConnectionEnd, extsList: seq<E>)
    requires 0 <= cursor < blockEnd && cursor + 4 <= |buffer|
    requires forall j :: 0 <= j < |known| ==> known[j].extType != Int16FromBytes(buffer[cursor], buffer[cursor + 1])
    ensures var next := cursor + 4 + UInt16FromBytes(buffer[cursor + 2], buffer[cursor + 3]);
      IntendedParseFrom(buffer, blockEnd, cursor, known, end, extsList)
        == IntendedParseFrom(buffer, blockEnd, next, known, end, extsList)
  {
    var extType := Int16FromBytes(buffer[cursor], buffer[cursor + 1]);
    assert FirstKnownIndex(known, extType) == |known|;
  }

  /** A known extension of type 16 whose Parse takes the entry's length in
      bytes and returns its type. */
  function TypeSixteen(): KnownExtension<int> {
    KnownExtension(16, (b: seq<byte>, c: int, len: int, e: ConnectionEnd) =>
      if len < 0 then Throws(ArgumentOutOfRange) else Ok((16, len as nat)))
  }

  /** The input that shows the skip defect: a block of 8 bytes holding an
      empty entry of unknown type 0xFF01, then an empty entry of the known
      type 16. As written, the unknown entry moves the cursor by 8 to 14,
      past the block end at 10, and the known entry is never parsed; with
      the intended skip it is. */
  lemma UnknownEntryHidesKnownOne()
    ensures var buffer: seq<byte> := [0, 8, 0xFF, 0x01, 0, 0, 0, 16, 0, 0];
      && ParseResult(buffer, 0, [TypeSixteen()], Server) == Ok(([], 14))
      && IntendedParseFrom(buffer, 10, 2, [TypeSixteen()], Server, []) == Ok(([16], 10))
  {
    var buffer: seq<byte> := [0, 8, 0xFF, 0x01, 0, 0, 0, 16, 0, 0];
    var known := [TypeSixteen()];
    assert Int16FromBytes(0, 8) == 8;
    assert Int16FromBytes(0xFF, 0x01) == -255;
    assert FirstKnownIndex(known, -255) == 1;
    assert ParseFrom(buffer, 10, 8, 2, known, Server, []) == ParseFrom(buffer, 10, 8, 14, known, Server, []);
    assert IntendedParseFrom(buffer, 10, 2, known, Server, []) == IntendedParseFrom(buffer, 10, 6, known, Server, []);
    assert FirstKnownIndex(known, 16) == 0;
    assert Int16FromBytes(0, 16) == 16 && Int16FromBytes(0, 0) == 0;
    assert known[0].parse(buffer, 10, 0, Server) == Ok((16, 0));
    assert AddStep(buffer, 10, 0, Server, known, 16, []) == Added(10, [16]);
    assert IntendedParseFrom(buffer, 10, 6, known, Server, []) == IntendedParseFrom(buffer, 10, 10, known, Server, [16]);
  }
}
