/** The incremental request parser (http_parse.cpp, http_parse.h). */
module HttpParse {
  import opened Bytes
  import opened ByteBuffer
  import opened HttpRequest

  datatype State = ExpectRequestLine | ExpectHeaders | ExpectBody | GotAll

  const QUESTION: byte := 0x3F
  const HTTP1: seq<byte> := [0x48, 0x54, 0x54, 0x50, 0x2F, 0x31, 0x2E]
  const DIGIT_0: byte := 0x30
  const DIGIT_1: byte := 0x31

  /** `std::find`: the first position of `b`, or the length. */
  function IndexOf(s: seq<byte>, b: byte): (k: nat)
    ensures k <= |s| && (k < |s| ==> s[k] == b) && (forall j :: 0 <= j < k ==> s[j] != b)
  {
    if s == [] || s[0] == b then 0 else 1 + IndexOf(s[1..], b)
  }

  method FindByte(s: seq<byte>, b: byte) returns (k: nat)
    ensures k == IndexOf(s, b)
  {
    k := 0;
    while k < |s| && s[k] != b
      invariant k <= |s| && forall j :: 0 <= j < k ==> s[j] != b
    {
      k := k + 1;
    }
    IndexIs(s, b, k);
  }

  lemma IndexIs(s: seq<byte>, b: byte, k: nat)
    requires k <= |s| && (k < |s| ==> s[k] == b) && forall j :: 0 <= j < k ==> s[j] != b
    ensures IndexOf(s, b) == k
  {
  }

  /** The request line: what it makes of the fields, and whether it is accepted. A line that is refused
      may have set some of them already. */
  function RequestLine(f: Fields, line: seq<byte>): (Fields, bool) {
    var space := IndexOf(line, SPACE);
    if space == |line| then (f, false)
    else
      var f1 := f.(verb := MethodOf(line[..space]));
      if f1.verb == Invalid then (f1, false) else Target(f1, line[space + 1..])
  }

  /** Path, query and version. */
  function Target(f: Fields, rest: seq<byte>): (Fields, bool) {
    var space := IndexOf(rest, SPACE);
    if space == |rest| then (f, false)
    else
      var target := rest[..space];
      var question := IndexOf(target, QUESTION);
      var f1 := if question < |target| then f.(path := target[..question], query := target[question..])
                else f.(path := target);
      VersionPart(f1, rest[space + 1..])
  }

  function VersionPart(f: Fields, rest: seq<byte>): (Fields, bool) {
    if |rest| != 8 || rest[..7] != HTTP1 then (f, false)
    else if rest[7] == DIGIT_1 then (f.(version := Http11), true)
    else if rest[7] == DIGIT_0 then (f.(version := Http10), true)
    else (f, false)
  }

  /** The parser's state, the request's fields, the bytes left over, and the answer of the call. */
  datatype Outcome = Outcome(state: State, fields: Fields, rest: seq<byte>, ok: bool)

  /** `parseRequest` on the readable bytes. */
  function Parse(state: State, f: Fields, s: seq<byte>): (r: Outcome)
    requires state != GotAll
    decreases |s|
  {
    var k := FirstCrlf(s, 0);
    if state == ExpectBody || k == |s| then Outcome(state, f, s, true)
    else if state == ExpectRequestLine then
      var (f1, ok) := RequestLine(f, s[..k]);
      if ok then Parse(ExpectHeaders, f1, s[k + 2..]) else Outcome(state, f1, s, false)
    else
      var colon := IndexOf(s[..k], COLON);
      if colon < k then Parse(ExpectHeaders, WithHeader(f, s[..k], colon), s[k + 2..])
      else Outcome(GotAll, f, s[k + 2..], true)
  }

  lemma ParseUnfold(state: State, f: Fields, s: seq<byte>)
    requires state != GotAll
    ensures var k := FirstCrlf(s, 0);
            && (state == ExpectBody || k == |s| ==> Parse(state, f, s) == Outcome(state, f, s, true))
            && (state == ExpectRequestLine && k < |s| ==>
                  var (f1, ok) := RequestLine(f, s[..k]);
                  Parse(state, f, s) == if ok then Parse(ExpectHeaders, f1, s[k + 2..]) else Outcome(state, f1, s, false))
            && (state == ExpectHeaders && k < |s| ==>
                  var colon := IndexOf(s[..k], COLON);
                  Parse(state, f, s) == if colon < k then Parse(ExpectHeaders, WithHeader(f, s[..k], colon), s[k + 2..])
                                        else Outcome(GotAll, f, s[k + 2..], true))
  {
    hide RequestLine, WithHeader, IndexOf;
  }

  // ----- chunking -----

  /** What the caller does when more bytes arrive: unless the request is finished, parse again. */
  function More(r: Outcome, b: seq<byte>): Outcome {
    if r.state == GotAll then r.(rest := r.rest + b) else Parse(r.state, r.fields, r.rest + b)
  }

  /** A second look at a refused line changes nothing more. */
  lemma RequestLineTwice(f: Fields, line: seq<byte>)
    ensures RequestLine(RequestLine(f, line).0, line) == RequestLine(f, line)
  {
  }

  /** The first CRLF of a text that has one stays the first when more follows. */
  lemma FirstCrlfOfPrefix(a: seq<byte>, b: seq<byte>)
    requires FirstCrlf(a, 0) < |a|
    ensures FirstCrlf(a + b, 0) == FirstCrlf(a, 0)
  {
    assert CrlfAt(a + b, FirstCrlf(a, 0));
    forall j | 0 <= j < FirstCrlf(a, 0)
      ensures !CrlfAt(a + b, j)
    {
      assert CrlfAt(a, j) || !CrlfAt(a + b, j);
    }
  }

  /** Parsing does not depend on how the input was split. */
  lemma {:induction false} ChunkingDoesNotMatter(state: State, f: Fields, a: seq<byte>, b: seq<byte>)
    requires state != GotAll
    ensures More(Parse(state, f, a), b) == Parse(state, f, a + b)
    decreases |a|
  {
    hide Parse, RequestLine, WithHeader, IndexOf;
    var k := FirstCrlf(a, 0);
    ParseUnfold(state, f, a);
    ParseUnfold(state, f, a + b);
    if state != ExpectBody && k < |a| {
      FirstCrlfOfPrefix(a, b);
      assert (a + b)[..k] == a[..k] && (a + b)[k + 2..] == a[k + 2..] + b;
      if state == ExpectRequestLine {
        RequestLineTwice(f, a[..k]);
        ParseUnfold(state, RequestLine(f, a[..k]).0, a + b);
        if RequestLine(f, a[..k]).1 {
          ChunkingDoesNotMatter(ExpectHeaders, RequestLine(f, a[..k]).0, a[k + 2..], b);
        }
      } else if IndexOf(a[..k], COLON) < k {
        ChunkingDoesNotMatter(ExpectHeaders, WithHeader(f, a[..k], IndexOf(a[..k], COLON)), a[k + 2..], b);
      }
    }
  }

  /** Any number of chunks, parsed as they come. */
  function ParseChunks(r: Outcome, chunks: seq<seq<byte>>): Outcome
    decreases |chunks|
  {
    if chunks == [] then r else ParseChunks(More(r, chunks[0]), chunks[1..])
  }

  function Flatten(chunks: seq<seq<byte>>): seq<byte> {
    if chunks == [] then [] else chunks[0] + Flatten(chunks[1..])
  }

  lemma {:induction false} ChunksAreOneText(state: State, f: Fields, a: seq<byte>, chunks: seq<seq<byte>>)
    requires state != GotAll
    ensures ParseChunks(Parse(state, f, a), chunks) == Parse(state, f, a + Flatten(chunks))
    decreases |chunks|
  {
    hide Parse, More;
    if chunks == [] {
      assert a + Flatten(chunks) == a;
    } else {
      ChunkingDoesNotMatter(state, f, a, chunks[0]);
      ChunksAreOneText(state, f, a + chunks[0], chunks[1..]);
      assert a + chunks[0] + Flatten(chunks[1..]) == a + Flatten(chunks);
    }
  }

  // ----- a request as it is written -----

  /** Nothing in the text ends a line; a carriage return alone does not. */
  predicate OneLine(s: seq<byte>) {
    forall k :: 0 <= k < |s| ==> !CrlfAt(s, k)
  }

  predicate Free(s: seq<byte>, ends: set<byte>) {
    forall k :: 0 <= k < |s| ==> s[k] !in ends
  }

  /** Fields that a request line can say. */
  predicate Sayable(f: Fields) {
    && f.verb != Invalid && f.version != Unknown
    && Free(f.path, {SPACE, QUESTION}) && Free(f.query, {SPACE})
    && (f.query != [] ==> f.query[0] == QUESTION)
  }

  function VersionByte(v: Version): byte {
    if v == Http11 then DIGIT_1 else DIGIT_0
  }

  function LineText(f: Fields): seq<byte> {
    MethodString(f.verb) + ([SPACE] + (f.path + f.query + ([SPACE] + (HTTP1 + [VersionByte(f.version)]))))
  }

  lemma IndexOfAfter(a: seq<byte>, b: byte, rest: seq<byte>)
    requires forall k :: 0 <= k < |a| ==> a[k] != b
    requires rest == [] || rest[0] == b
    ensures IndexOf(a + rest, b) == |a|
  {
    IndexIs(a + rest, b, |a|);
  }

  lemma MethodIsPlain(m: Method)
    ensures Free(MethodString(m), {SPACE}) && OneLine(MethodString(m))
  {
  }

  lemma VersionRoundTrip(v: Version, g: Fields)
    requires v != Unknown
    ensures VersionPart(g, HTTP1 + [VersionByte(v)]) == (g.(version := v), true)
  {
    assert (HTTP1 + [VersionByte(v)])[..7] == HTTP1;
  }

  lemma TargetRoundTrip(f: Fields, g: Fields)
    requires Sayable(f)
    ensures Target(g, f.path + f.query + ([SPACE] + (HTTP1 + [VersionByte(f.version)])))
         == (g.(path := f.path, query := if f.query == [] then g.query else f.query, version := f.version), true)
  {
    hide VersionPart, VersionByte, IndexOf;
    var version, target := HTTP1 + [VersionByte(f.version)], f.path + f.query;
    var behind := target + ([SPACE] + version);
    IndexOfAfter(target, SPACE, [SPACE] + version);
    assert behind[..|target|] == target && behind[|target| + 1..] == version;
    IndexOfAfter(f.path, QUESTION, f.query);
    assert target[..|f.path|] == f.path && target[|f.path|..] == f.query;
    if f.query == [] {
      assert target == f.path;
    }
    VersionRoundTrip(f.version, g.(path := f.path));
    VersionRoundTrip(f.version, g.(path := f.path, query := f.query));
  }

  /** A request line is read back as the fields it says. A line without a query leaves the query alone. */
  lemma LineRoundTrip(f: Fields, g: Fields)
    requires Sayable(f)
    ensures RequestLine(g, LineText(f))
         == (Fields(f.verb, f.version, f.path, if f.query == [] then g.query else f.query, g.headers), true)
  {
    hide Target, MethodString, MethodOf, IndexOf;
    var behind := f.path + f.query + ([SPACE] + (HTTP1 + [VersionByte(f.version)]));
    var verb := MethodString(f.verb);
    MethodIsPlain(f.verb);
    IndexOfAfter(verb, SPACE, [SPACE] + behind);
    assert LineText(f)[..|verb|] == verb && LineText(f)[|verb| + 1..] == behind;
    MethodRoundTrip(f.verb, verb);
    TargetRoundTrip(f, g.(verb := f.verb));
  }

  /** The lines that are accepted are exactly those that some fields are written as. */
  lemma LineAccepted(g: Fields, line: seq<byte>)
    ensures RequestLine(g, line).1 <==> exists f :: Sayable(f) && LineText(f) == line
  {
    hide RequestLine, LineText;
    if RequestLine(g, line).1 {
      var f := Said(g, line);
    }
    forall f | Sayable(f) && LineText(f) == line
      ensures RequestLine(g, line).1
    {
      LineRoundTrip(f, g);
    }
  }

  /** The fields an accepted line says. */
  lemma Said(g: Fields, line: seq<byte>) returns (f: Fields)
    requires RequestLine(g, line).1
    ensures Sayable(f) && LineText(f) == line
  {
    hide MethodString, MethodOf, IndexOf, Target;
    var space := IndexOf(line, SPACE);
    var verb := MethodOf(line[..space]);
    MethodRoundTrip(verb, line[..space]);
    f := SaidBehind(g.(verb := verb), line[space + 1..]);
    assert line == line[..space] + ([SPACE] + line[space + 1..]);
  }

  lemma SaidBehind(g: Fields, rest: seq<byte>) returns (f: Fields)
    requires g.verb != Invalid && Target(g, rest).1
    ensures Sayable(f) && f.verb == g.verb
    ensures f.path + f.query + ([SPACE] + (HTTP1 + [VersionByte(f.version)])) == rest
  {
    hide IndexOf;
    var end := IndexOf(rest, SPACE);
    var target, version := rest[..end], rest[end + 1..];
    var question := IndexOf(target, QUESTION);
    f := g.(path := target[..question], query := target[question..],
            version := if version[7] == DIGIT_1 then Http11 else Http10);
    assert version == HTTP1 + [VersionByte(f.version)];
    assert target == f.path + f.query;
    assert rest == target + ([SPACE] + version);
  }

  /** A header as it is written, with any blanks around the value. */
  datatype Header = Header(field: seq<byte>, lead: seq<byte>, value: seq<byte>, tail: seq<byte>)

  predicate HeaderSayable(h: Header) {
    && Free(h.field, {0x3A}) && OneLine(HeaderText(h))
    && (forall k :: 0 <= k < |h.lead| ==> h.lead[k] in BLANKS) && (forall k :: 0 <= k < |h.tail| ==> h.tail[k] in BLANKS)
    && (h.value != [] ==> h.value[0] !in BLANKS && h.value[|h.value| - 1] !in BLANKS)
  }

  function HeaderText(h: Header): seq<byte> {
    h.field + ([COLON] + (h.lead + h.value + h.tail))
  }

  lemma HeaderRoundTrip(h: Header, f: Fields)
    requires HeaderSayable(h)
    ensures IndexOf(HeaderText(h), COLON) == |h.field| < |HeaderText(h)|
    ensures WithHeader(f, HeaderText(h), |h.field|) == f.(headers := Insert(f.headers, h.field, h.value))
  {
    var text, rest := HeaderText(h), h.lead + h.value + h.tail;
    IndexOfAfter(h.field, COLON, [COLON] + rest);
    assert text[..|h.field|] == h.field && text[|h.field| + 1..] == rest;
    ValueBetweenBlanks(h.lead, h.value, h.tail);
  }

  const CRLF: seq<byte> := [CR, LF]

  /** The first CRLF behind a text without any is the one that ends it. */
  lemma CrlfBehind(line: seq<byte>, rest: seq<byte>)
    requires OneLine(line)
    ensures FirstCrlf(line + CRLF + rest, 0) == |line|
    ensures (line + CRLF + rest)[..|line|] == line && (line + CRLF + rest)[|line| + 2..] == rest
  {
    var s := line + CRLF + rest;
    assert CrlfAt(s, |line|);
    forall j | 0 <= j < |line|
      ensures !CrlfAt(s, j)
    {
      assert s[j] == line[j] && (j + 1 < |line| ==> s[j + 1] == line[j + 1]) && !CrlfAt(line, j);
    }
  }

  function HeadersText(hs: seq<Header>): seq<byte> {
    if hs == [] then [] else HeaderText(hs[0]) + CRLF + HeadersText(hs[1..])
  }

  /** The first of the headers with this field, or their number. */
  function FirstWith(hs: seq<Header>, field: seq<byte>): (k: nat)
    ensures k <= |hs| && (k < |hs| ==> hs[k].field == field) && forall j :: 0 <= j < k ==> hs[j].field != field
  {
    if hs == [] || hs[0].field == field then 0 else 1 + FirstWith(hs[1..], field)
  }

  /** What the headers are after these lines: a field that was there keeps its value, any other has the value of
      the first line that names it. */
  function Written(m: map<seq<byte>, seq<byte>>, hs: seq<Header>): map<seq<byte>, seq<byte>> {
    map field | field in m.Keys + (set h | h in hs :: h.field) ::
      if field in m then m[field] else if FirstWith(hs, field) < |hs| then hs[FirstWith(hs, field)].value else []
  }

  lemma WrittenNone(m: map<seq<byte>, seq<byte>>)
    ensures Written(m, []) == m
  {
  }

  lemma WrittenAt(m: map<seq<byte>, seq<byte>>, hs: seq<Header>, field: seq<byte>)
    ensures field in Written(m, hs) <==> field in m || FirstWith(hs, field) < |hs|
    ensures field in m ==> Written(m, hs)[field] == m[field]
    ensures field !in m && FirstWith(hs, field) < |hs| ==> Written(m, hs)[field] == hs[FirstWith(hs, field)].value
  {
    if FirstWith(hs, field) < |hs| {
      assert hs[FirstWith(hs, field)] in hs;
    }
  }

  lemma WrittenFirst(m: map<seq<byte>, seq<byte>>, hs: seq<Header>)
    requires hs != []
    ensures Written(Insert(m, hs[0].field, hs[0].value), hs[1..]) == Written(m, hs)
  {
    hide Written;
    var a, b := Written(Insert(m, hs[0].field, hs[0].value), hs[1..]), Written(m, hs);
    forall field
      ensures field in a <==> field in b
      ensures field in b ==> a[field] == b[field]
    {
      WrittenAt(m, hs, field);
      WrittenAt(Insert(m, hs[0].field, hs[0].value), hs[1..], field);
    }
  }

  /** Header lines are read back in order up to the first line without a colon, which is empty as a rule; what
      that line holds is dropped. */
  lemma {:induction false} HeadersRoundTrip(hs: seq<Header>, f: Fields, last: seq<byte>, rest: seq<byte>)
    requires forall k :: 0 <= k < |hs| ==> HeaderSayable(hs[k])
    requires OneLine(last) && Free(last, {0x3A})
    ensures Parse(ExpectHeaders, f, HeadersText(hs) + last + CRLF + rest)
         == Outcome(GotAll, f.(headers := Written(f.headers, hs)), rest, true)
    decreases |hs|
  {
    hide Parse, FirstCrlf, Written;
    var s := HeadersText(hs) + last + CRLF + rest;
    if hs == [] {
      CrlfBehind(last, rest);
      IndexIs(last, COLON, |last|);
      WrittenNone(f.headers);
      assert s == last + CRLF + rest;
    } else {
      var line, more := HeaderText(hs[0]), HeadersText(hs[1..]) + last + CRLF + rest;
      CrlfBehind(line, more);
      assert s == line + CRLF + more;
      HeaderRoundTrip(hs[0], f);
      HeadersRoundTrip(hs[1..], f.(headers := Insert(f.headers, hs[0].field, hs[0].value)), last, rest);
      WrittenFirst(f.headers, hs);
    }
    ParseUnfold(ExpectHeaders, f, s);
  }

  lemma OneLineJoined(a: seq<byte>, b: seq<byte>)
    requires OneLine(a) && OneLine(b) && (a != [] && b != [] ==> a[|a| - 1] != CR || b[0] != LF)
    ensures OneLine(a + b)
  {
    var s := a + b;
    forall k | 0 <= k < |s|
      ensures !CrlfAt(s, k)
    {
      assert if k < |a| then !CrlfAt(a, k) else !CrlfAt(b, k - |a|);
    }
  }

  lemma LineIsOne(f: Fields)
    requires Sayable(f) && OneLine(f.path) && OneLine(f.query)
    ensures OneLine(LineText(f))
  {
    hide MethodString;
    var version, target := HTTP1 + [VersionByte(f.version)], f.path + f.query;
    MethodIsPlain(f.verb);
    OneLineJoined([SPACE], version);
    OneLineJoined(f.path, f.query);
    OneLineJoined(target, [SPACE] + version);
    OneLineJoined([SPACE], target + ([SPACE] + version));
    OneLineJoined(MethodString(f.verb), [SPACE] + (target + ([SPACE] + version)));
  }

  /** A whole request as it is written is read back with its fields, and the bytes behind it are left. */
  lemma RequestRoundTrip(f: Fields, g: Fields, hs: seq<Header>, rest: seq<byte>)
    requires Sayable(f) && OneLine(f.path) && OneLine(f.query)
    requires forall k :: 0 <= k < |hs| ==> HeaderSayable(hs[k])
    ensures Parse(ExpectRequestLine, g, LineText(f) + CRLF + (HeadersText(hs) + CRLF + rest))
         == Outcome(GotAll,
                    Fields(f.verb, f.version, f.path, if f.query == [] then g.query else f.query, Written(g.headers, hs)),
                    rest, true)
  {
    hide Parse, FirstCrlf, LineText, RequestLine;
    var more := HeadersText(hs) + CRLF + rest;
    LineIsOne(f);
    CrlfBehind(LineText(f), more);
    LineRoundTrip(f, g);
    ParseUnfold(ExpectRequestLine, g, LineText(f) + CRLF + more);
    assert HeadersText(hs) + [] == HeadersText(hs);
    HeadersRoundTrip(hs, RequestLine(g, LineText(f)).0, [], rest);
  }

  // ----- what is refused, and what waits -----

  /** A line that is refused stays in the buffer, and the state with it; a text without a line end only waits. */
  lemma RefusedOrWaiting(g: Fields, line: seq<byte>, rest: seq<byte>)
    requires OneLine(line)
    ensures !RequestLine(g, line).1 ==>
              Parse(ExpectRequestLine, g, line + CRLF + rest)
              == Outcome(ExpectRequestLine, RequestLine(g, line).0, line + CRLF + rest, false)
    ensures forall state :: state != GotAll ==> Parse(state, g, line) == Outcome(state, g, line, true)
  {
    hide Parse, FirstCrlf, RequestLine;
    CrlfBehind(line, rest);
    ParseUnfold(ExpectRequestLine, g, line + CRLF + rest);
    NoLineEnd(line);
    forall state | state != GotAll
      ensures Parse(state, g, line) == Outcome(state, g, line, true)
    {
      ParseUnfold(state, g, line);
    }
  }

  lemma NoLineEnd(s: seq<byte>)
    requires OneLine(s)
    ensures FirstCrlf(s, 0) == |s|
  {
  }

  /** How far a refused line is read: nothing is set without a space in it, the method up to the first space,
      path and query up to the second. */
  lemma RefusedFields(g: Fields, word: seq<byte>, target: seq<byte>, query: seq<byte>, version: seq<byte>)
    requires Free(word, {0x20}) && Free(target, {0x20, 0x3F}) && Free(query, {0x20})
    requires query != [] ==> query[0] == 0x3F
    ensures RequestLine(g, word) == (g, false)
    ensures MethodOf(word) == Invalid ==>
              RequestLine(g, word + ([SPACE] + version)) == (g.(verb := Invalid), false)
    ensures MethodOf(word) != Invalid ==>
              && RequestLine(g, word + ([SPACE] + (target + query))) == (g.(verb := MethodOf(word)), false)
              && (version !in {Ascii("HTTP/1.0"), Ascii("HTTP/1.1")} ==>
                    RequestLine(g, word + ([SPACE] + (target + query + ([SPACE] + version))))
                    == (g.(verb := MethodOf(word), path := target, query := if query == [] then g.query else query), false))
  {
    hide MethodOf, IndexOf, Target;
    IndexIs(word, SPACE, |word|);
    MethodBehind(g, word, version);
    MethodBehind(g, word, target + query);
    MethodBehind(g, word, target + query + ([SPACE] + version));
    TargetRefused(g.(verb := MethodOf(word)), target, query, version);
  }

  lemma MethodBehind(g: Fields, word: seq<byte>, behind: seq<byte>)
    requires Free(word, {0x20})
    ensures RequestLine(g, word + ([SPACE] + behind))
         == if MethodOf(word) == Invalid then (g.(verb := Invalid), false) else Target(g.(verb := MethodOf(word)), behind)
  {
    hide MethodOf, IndexOf, Target;
    var line := word + ([SPACE] + behind);
    IndexOfAfter(word, SPACE, [SPACE] + behind);
    assert line[..|word|] == word && line[|word| + 1..] == behind;
  }

  lemma TargetRefused(g: Fields, target: seq<byte>, query: seq<byte>, version: seq<byte>)
    requires Free(target, {0x20, 0x3F}) && Free(query, {0x20}) && (query != [] ==> query[0] == 0x3F)
    ensures Target(g, target + query) == (g, false)
    ensures version !in {Ascii("HTTP/1.0"), Ascii("HTTP/1.1")} ==>
              Target(g, target + query + ([SPACE] + version))
              == (g.(path := target, query := if query == [] then g.query else query), false)
  {
    hide IndexOf, VersionPart;
    var all := target + query;
    var behind := all + ([SPACE] + version);
    IndexIs(all, SPACE, |all|);
    IndexOfAfter(all, SPACE, [SPACE] + version);
    assert behind[..|all|] == all && behind[|all| + 1..] == version;
    IndexOfAfter(target, QUESTION, query);
    assert all[..|target|] == target && all[|target|..] == query;
    if query == [] {
      assert all == target;
    }
    VersionMeans(g.(path := target, query := if query == [] then g.query else query), version);
  }

  /** The two versions by their names. */
  lemma VersionMeans(g: Fields, version: seq<byte>)
    ensures VersionPart(g, version)
         == if version == Ascii("HTTP/1.1") then (g.(version := Http11), true)
            else if version == Ascii("HTTP/1.0") then (g.(version := Http10), true)
            else (g, false)
  {
    if |version| == 8 && version[..7] == HTTP1 {
      assert version == version[..7] + [version[7]];
    }
    assert Ascii("HTTP/1.1")[..7] == HTTP1 && Ascii("HTTP/1.0")[..7] == HTTP1;
  }

  // ----- the parser object -----

  class HttpParse {
    var state: State
    const request: HttpRequest

    constructor (request: HttpRequest)
      ensures state == ExpectRequestLine && this.request == request
    {
      this.request := request;
      state := ExpectRequestLine;
    }

    /** `processRequestLine` */
    method ProcessRequestLine(line: seq<byte>) returns (succeed: bool)
      modifies request
      ensures (request.FieldsOf(), succeed) == RequestLine(old(request.FieldsOf()), line)
    {
      succeed := false;
      var space := FindByte(line, SPACE);
      if space != |line| {
        var known := request.SetMethod(line[..space]);
        if known {
          succeed := ProcessTarget(line[space + 1..]);
        }
      }
    }

    /** Its inner part, behind the method. */
    method ProcessTarget(rest: seq<byte>) returns (succeed: bool)
      modifies request
      ensures (request.FieldsOf(), succeed) == Target(old(request.FieldsOf()), rest)
    {
      succeed := false;
      var space := FindByte(rest, SPACE);
      if space != |rest| {
        var question := FindByte(rest[..space], QUESTION);
        if question != space {
          request.SetPath(rest[..question]);
          request.SetQuery(rest[question..space]);
          assert rest[..space][..question] == rest[..question] && rest[..space][question..] == rest[question..space];
        } else {
          request.SetPath(rest[..space]);
        }
        var version := rest[space + 1..];
        succeed := |version| == 8 && version[..7] == HTTP1;
        if succeed {
          if version[7] == DIGIT_1 {
            request.SetVersion(Http11);
          } else if version[7] == DIGIT_0 {
            request.SetVersion(Http10);
          } else {
            succeed := false;
          }
        }
      }
    }

    /** One turn of the loop in state `ExpectRequestLine`. */
    method TakeRequestLine(buf: Buffer) returns (ok: bool, hasMore: bool)
      requires buf.Valid() && state == ExpectRequestLine
      modifies this`state, request, buf`readerIndex, buf`writerIndex
      ensures buf.Valid() && state != GotAll && |buf.Contents()| <= |old(buf.Contents())|
      ensures hasMore ==> ok && |buf.Contents()| < |old(buf.Contents())|
      ensures Parse(ExpectRequestLine, old(request.FieldsOf()), old(buf.Contents()))
           == if hasMore then Parse(state, request.FieldsOf(), buf.Contents())
              else Outcome(state, request.FieldsOf(), buf.Contents(), ok)
    {
      hide Parse, RequestLine, FirstCrlf;
      ParseUnfold(state, request.FieldsOf(), buf.Contents());
      ok, hasMore := true, true;
      var crlf := buf.FindCRLF();
      if crlf < buf.ReadableBytes() {
        CrlfInside(buf.Contents(), crlf);
        ok := ProcessRequestLine(buf.Contents()[..crlf]);
        if ok {
          buf.Retrieve(crlf + 2);
          state := ExpectHeaders;
        } else {
          hasMore := false;
        }
      } else {
        hasMore := false;
      }
    }

    /** One turn of the loop in state `ExpectHeaders`. */
    method TakeHeader(buf: Buffer) returns (hasMore: bool)
      requires buf.Valid() && state == ExpectHeaders
      modifies this`state, request, buf`readerIndex, buf`writerIndex
      ensures buf.Valid() && |buf.Contents()| <= |old(buf.Contents())|
      ensures hasMore ==> state == ExpectHeaders && |buf.Contents()| < |old(buf.Contents())|
      ensures Parse(ExpectHeaders, old(request.FieldsOf()), old(buf.Contents()))
           == if hasMore then Parse(ExpectHeaders, request.FieldsOf(), buf.Contents())
              else Outcome(state, request.FieldsOf(), buf.Contents(), true)
    {
      hide Parse, WithHeader, FirstCrlf, IndexOf;
      ParseUnfold(state, request.FieldsOf(), buf.Contents());
      hasMore := true;
      var crlf := buf.FindCRLF();
      if crlf < buf.ReadableBytes() {
        CrlfInside(buf.Contents(), crlf);
        var line := buf.Contents()[..crlf];
        var colon := FindByte(line, COLON);
        if colon != crlf {
          request.AddHeader(line, colon);
        } else {
          state := GotAll;
          hasMore := false;
        }
        buf.Retrieve(crlf + 2);
      } else {
        hasMore := false;
      }
    }

    /** `parseRequest`: the loop over the lines. In state `GotAll` the loop of the source would not end. */
    method ParseRequest(buf: Buffer) returns (ok: bool)
      requires buf.Valid() && state != GotAll
      modifies this`state, request, buf`readerIndex, buf`writerIndex
      ensures buf.Valid()
      ensures Outcome(state, request.FieldsOf(), buf.Contents(), ok)
           == Parse(old(state), old(request.FieldsOf()), old(buf.Contents()))
    {
      hide Parse, FirstCrlf;
      ok := true;
      var hasMore := true;
      ghost var result := Parse(state, request.FieldsOf(), buf.Contents());
      while hasMore
        invariant buf.Valid()
        invariant hasMore ==> ok && state != GotAll && result == Parse(state, request.FieldsOf(), buf.Contents())
        invariant !hasMore ==> result == Outcome(state, request.FieldsOf(), buf.Contents(), ok)
        decreases hasMore, if hasMore then |buf.Contents()| else 0
      {
        if state == ExpectRequestLine {
          ok, hasMore := TakeRequestLine(buf);
        } else if state == ExpectHeaders {
          hasMore := TakeHeader(buf);
        } else {
          ParseUnfold(state, request.FieldsOf(), buf.Contents());
          hasMore := false;
        }
      }
    }
  }

  lemma CrlfInside(s: seq<byte>, k: nat)
    requires k == FirstCrlf(s, 0) && k < |s|
    ensures k + 2 <= |s|
  {
  }
}
