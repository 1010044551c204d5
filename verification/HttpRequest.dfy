/** The request object (http_request.h). */
module HttpRequest {
  import opened Bytes

  datatype Method = Invalid | Get | Post | Head | Put | Delete
  datatype Version = Unknown | Http10 | Http11

  /** The fields that parsing fills. */
  datatype Fields = Fields(verb: Method, version: Version, path: seq<byte>, query: seq<byte>, headers: map<seq<byte>, seq<byte>>)

  const GET: seq<byte> := [0x47, 0x45, 0x54]
  const POST: seq<byte> := [0x50, 0x4F, 0x53, 0x54]
  const HEAD: seq<byte> := [0x48, 0x45, 0x41, 0x44]
  const PUT: seq<byte> := [0x50, 0x55, 0x54]
  const DELETE: seq<byte> := [0x44, 0x45, 0x4C, 0x45, 0x54, 0x45]
  const UNKNOWN: seq<byte> := [0x55, 0x4E, 0x4B, 0x4E, 0x4F, 0x57, 0x4E]

  function MethodOf(m: seq<byte>): Method {
    if m == GET then Get else if m == POST then Post else if m == HEAD then Head
    else if m == PUT then Put else if m == DELETE then Delete else Invalid
  }

  /** `methodString` */
  function MethodString(m: Method): seq<byte> {
    match m
    case Get => GET
    case Post => POST
    case Head => HEAD
    case Put => PUT
    case Delete => DELETE
    case Invalid => UNKNOWN
  }

  /** The five names. */
  lemma MethodNames(m: seq<byte>)
    ensures MethodOf(m)
         == if m == Ascii("GET") then Get else if m == Ascii("POST") then Post else if m == Ascii("HEAD") then Head
            else if m == Ascii("PUT") then Put else if m == Ascii("DELETE") then Delete else Invalid
    ensures MethodString(Get) == Ascii("GET") && MethodString(Post) == Ascii("POST") && MethodString(Head) == Ascii("HEAD")
    ensures MethodString(Put) == Ascii("PUT") && MethodString(Delete) == Ascii("DELETE")
    ensures MethodString(Invalid) == Ascii("UNKNOWN")
  {
  }

  /** The names are read back as the methods they name, and no other text is. */
  lemma MethodRoundTrip(m: Method, s: seq<byte>)
    ensures MethodOf(MethodString(m)) == m
    ensures MethodOf(s) != Invalid ==> MethodString(MethodOf(s)) == s
  {
    assert GET[0] == 0x47 && POST[0] == 0x50 && HEAD[0] == 0x48 && PUT[0] == 0x50 && DELETE[0] == 0x44 && UNKNOWN[0] == 0x55;
    assert |POST| == 4 && |PUT| == 3;
  }

  /** `isspace` in the C locale. */
  predicate IsSpace(b: byte) {
    b == SPACE || TAB <= b <= CR
  }

  /** What `addHeader` cuts out behind the colon. */
  function TrimLeft(s: seq<byte>): seq<byte> {
    if s != [] && IsSpace(s[0]) then TrimLeft(s[1..]) else s
  }

  function TrimRight(s: seq<byte>): seq<byte> {
    if s != [] && IsSpace(s[|s| - 1]) then TrimRight(s[..|s| - 1]) else s
  }

  function Trim(s: seq<byte>): seq<byte> {
    TrimRight(TrimLeft(s))
  }

  /** Neither the first nor the last byte is a space. */
  predicate Trimmed(s: seq<byte>) {
    s == [] || (!IsSpace(s[0]) && !IsSpace(s[|s| - 1]))
  }

  predicate Blank(s: seq<byte>) {
    forall k :: 0 <= k < |s| ==> IsSpace(s[k])
  }

  /** Tab, line feed, vertical tab, form feed, carriage return, space. */
  const BLANKS: set<byte> := {0x09, 0x0A, 0x0B, 0x0C, 0x0D, 0x20}

  lemma SpacesAreBlanks(b: byte)
    ensures IsSpace(b) <==> b in BLANKS
  {
  }

  /** The value stored for a header line: for every text of blanks before and behind it, what stands between. */
  lemma ValueBetweenBlanks(lead: seq<byte>, v: seq<byte>, tail: seq<byte>)
    requires (forall k :: 0 <= k < |lead| ==> lead[k] in BLANKS) && (forall k :: 0 <= k < |tail| ==> tail[k] in BLANKS)
    requires v != [] ==> v[0] !in BLANKS && v[|v| - 1] !in BLANKS
    ensures Trim(lead + v + tail) == v
  {
    forall b: byte
      ensures IsSpace(b) <==> b in BLANKS
    {
      SpacesAreBlanks(b);
    }
    TrimIs(lead + v + tail, lead, v, tail);
  }

  lemma {:induction false} TrimLeftParts(s: seq<byte>) returns (lead: seq<byte>)
    ensures Blank(lead) && s == lead + TrimLeft(s)
    ensures TrimLeft(s) == [] || !IsSpace(TrimLeft(s)[0])
    decreases |s|
  {
    lead := [];
    if s != [] && IsSpace(s[0]) {
      var more := TrimLeftParts(s[1..]);
      lead := [s[0]] + more;
    }
  }

  lemma {:induction false} TrimRightParts(s: seq<byte>) returns (tail: seq<byte>)
    ensures Blank(tail) && s == TrimRight(s) + tail
    ensures TrimRight(s) == [] || !IsSpace(TrimRight(s)[|TrimRight(s)| - 1])
    decreases |s|
  {
    tail := [];
    if s != [] && IsSpace(s[|s| - 1]) {
      var more := TrimRightParts(s[..|s| - 1]);
      tail := more + [s[|s| - 1]];
    }
  }

  /** The trimmed value lies between blanks, and it is the only trimmed text that does. */
  lemma TrimIs(s: seq<byte>, lead: seq<byte>, v: seq<byte>, tail: seq<byte>)
    requires s == lead + v + tail && Blank(lead) && Blank(tail) && Trimmed(v)
    ensures Trim(s) == v
  {
    TrimLeftIs(s, lead, v + tail);
    if v == [] {
      assert v + tail == tail;
      TrimLeftIs(tail, tail, []);
      assert tail == tail + [];
    } else {
      TrimRightIs(v + tail, v, tail);
    }
  }

  /** Every text is a value between blanks. */
  lemma TrimParts(s: seq<byte>) returns (lead: seq<byte>, tail: seq<byte>)
    ensures (forall k :: 0 <= k < |lead| ==> lead[k] in BLANKS) && (forall k :: 0 <= k < |tail| ==> tail[k] in BLANKS)
    ensures s == lead + Trim(s) + tail
    ensures Trim(s) != [] ==> Trim(s)[0] !in BLANKS && Trim(s)[|Trim(s)| - 1] !in BLANKS
  {
    lead := TrimLeftParts(s);
    tail := TrimRightParts(TrimLeft(s));
    forall b: byte
      ensures IsSpace(b) <==> b in BLANKS
    {
      SpacesAreBlanks(b);
    }
    if Trim(s) != [] {
      assert Trim(s)[0] == TrimLeft(s)[0];
    }
  }

  lemma {:induction false} TrimLeftIs(s: seq<byte>, lead: seq<byte>, rest: seq<byte>)
    requires s == lead + rest && Blank(lead)
    ensures rest == [] || !IsSpace(rest[0]) ==> TrimLeft(s) == rest
    ensures TrimLeft(s) == TrimLeft(rest)
    decreases |lead|
  {
    if lead == [] {
      assert s == rest;
    } else {
      assert s[1..] == lead[1..] + rest && s[0] == lead[0];
      TrimLeftIs(s[1..], lead[1..], rest);
    }
  }

  lemma {:induction false} TrimRightIs(s: seq<byte>, rest: seq<byte>, tail: seq<byte>)
    requires s == rest + tail && Blank(tail) && rest != [] && !IsSpace(rest[|rest| - 1])
    ensures TrimRight(s) == rest
    decreases |tail|
  {
    if tail == [] {
      assert s == rest;
    } else {
      assert s[..|s| - 1] == rest + tail[..|tail| - 1] && s[|s| - 1] == tail[|tail| - 1];
      TrimRightIs(s[..|s| - 1], rest, tail[..|tail| - 1]);
    }
  }

  /** `std::map::insert` keeps what is there. */
  function Insert(m: map<seq<byte>, seq<byte>>, key: seq<byte>, value: seq<byte>): map<seq<byte>, seq<byte>> {
    if key in m then m else m[key := value]
  }

  function WithHeader(f: Fields, line: seq<byte>, colon: nat): Fields
    requires colon < |line|
  {
    f.(headers := Insert(f.headers, line[..colon], Trim(line[colon + 1..])))
  }

  class HttpRequest {
    var verb: Method
    var version: Version
    var path: seq<byte>
    var query: seq<byte>
    var headers: map<seq<byte>, seq<byte>>

    function FieldsOf(): Fields
      reads this
    {
      Fields(verb, version, path, query, headers)
    }

    constructor ()
      ensures FieldsOf() == Fields(Invalid, Unknown, [], [], map[])
    {
      verb, version, path, query, headers := Invalid, Unknown, [], [], map[];
    }

    method SetVersion(v: Version)
      modifies this`version
      ensures version == v
    {
      version := v;
    }

    method SetMethod(m: seq<byte>) returns (ok: bool)
      modifies this`verb
      ensures verb == MethodOf(m) && (ok <==> m in {GET, POST, HEAD, PUT, DELETE})
    {
      MethodRoundTrip(Get, m);
      if m == GET {
        verb := Get;
      } else if m == POST {
        verb := Post;
      } else if m == HEAD {
        verb := Head;
      } else if m == PUT {
        verb := Put;
      } else if m == DELETE {
        verb := Delete;
      } else {
        verb := Invalid;
      }
      ok := verb != Invalid;
    }

    method SetPath(p: seq<byte>)
      modifies this`path
      ensures path == p
    {
      path := p;
    }

    method SetQuery(q: seq<byte>)
      modifies this`query
      ensures query == q
    {
      query := q;
    }

    /** `addHeader`: the field up to the colon, the value behind it without the blanks around it. */
    method AddHeader(line: seq<byte>, colon: nat)
      requires colon < |line|
      modifies this`headers
      ensures FieldsOf() == WithHeader(old(FieldsOf()), line, colon)
      ensures var field := line[..colon];
              if field in old(headers) then headers == old(headers)
              else
                && headers.Keys == old(headers).Keys + {field}
                && (forall f :: f in old(headers) ==> headers[f] == old(headers)[f])
                && exists lead, tail ::
                     && line[colon + 1..] == lead + headers[field] + tail
                     && (forall k :: 0 <= k < |lead| ==> lead[k] in BLANKS)
                     && (forall k :: 0 <= k < |tail| ==> tail[k] in BLANKS)
                     && (headers[field] != [] ==>
                           headers[field][0] !in BLANKS && headers[field][|headers[field]| - 1] !in BLANKS)
    {
      ghost var lead, tail := TrimParts(line[colon + 1..]);
      var field, start := line[..colon], colon + 1;
      while start < |line| && IsSpace(line[start])
        invariant colon + 1 <= start <= |line|
        invariant TrimLeft(line[colon + 1..]) == TrimLeft(line[start..])
      {
        assert line[start..][1..] == line[start + 1..];
        start := start + 1;
      }
      assert TrimLeft(line[start..]) == line[start..];
      var value := line[start..];
      while value != [] && IsSpace(value[|value| - 1])
        invariant TrimRight(value) == Trim(line[colon + 1..])
        decreases |value|
      {
        value := value[..|value| - 1];
      }
      if field !in headers {
        headers := headers[field := value];
      }
    }

    /** `getHeader`: the empty text stands for an absent header. */
    method GetHeader(field: seq<byte>) returns (result: seq<byte>)
      ensures result == if field in headers then headers[field] else []
    {
      result := [];
      if field in headers {
        result := headers[field];
      }
    }
  }
}
