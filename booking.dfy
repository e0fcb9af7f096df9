/** The booking provider's parsing of a subscription feed: the whole feed is
    URL-safe base64 of newline-separated `ssr://` lines, and each line is
    URL-safe base64 of `host:port:protocol:method:obfs:password?params`, the
    password itself being standard, padded base64. */
module Booking {
  import opened GoStrings
  import opened Wrappers
  import opened Base64
  import opened Strconv
  import opened Provider

  const Scheme: Bytes := [115, 115, 114, 58, 47, 47]            // "ssr://"
  const LocalAddress: Bytes := [49, 50, 55, 46, 48, 46, 48, 46, 49] // "127.0.0.1"
  const LocalPort: int := 1080
  const Timeout: int := 5000  // milliseconds
  const Workers: int := 5

  // ----- The URL-safe alphabet -----

  /** Section 5 of RFC 4648 to section 4: '_' becomes '/', '-' becomes '+'. */
  function StdByte(c: byte): byte
  {
    if c == Underscore then Slash else if c == Dash then Plus else c
  }

  /** Section 4 of RFC 4648 to section 5: '/' becomes '_', '+' becomes '-'. */
  function UrlByte(c: byte): byte
  {
    if c == Slash then Underscore else if c == Plus then Dash else c
  }

  /** The two `strings.Replace` calls that turn URL-safe base64 into standard
      base64: no '_' or '-' is left for the decoder. */
  function UrlToStd(s: Bytes): (r: Bytes)
    ensures |r| == |s|
    ensures forall i :: 0 <= i < |s| ==> r[i] == StdByte(s[i])
    ensures Underscore !in r && Dash !in r
  {
    var t := ReplaceAll(s, [Underscore], [Slash]);
    ReplaceByte(s, Underscore, Slash);
    ReplaceByte(t, Dash, Plus);
    ReplaceAll(t, [Dash], [Plus])
  }

  /** What a publisher does to standard base64 to make it URL-safe. */
  function StdToUrl(s: Bytes): (r: Bytes)
    ensures |r| == |s|
    ensures forall i :: 0 <= i < |s| ==> r[i] == UrlByte(s[i])
  {
    seq(|s|, i requires 0 <= i < |s| => UrlByte(s[i]))
  }

  /** The URL-safe form of base64 text maps back to the text. */
  lemma UrlRoundTrip(s: Bytes)
    requires Underscore !in s && Dash !in s
    ensures UrlToStd(StdToUrl(s)) == s
  {
  }

  // ----- One subscription line: processServer -----

  /** What `processServer` makes of one line. `Panicked` is Go's run-time
      panic on an index or slice out of range. */
  datatype LineResult = Parsed(server: Server) | Skipped | DecodeFailed | Panicked

  /** The text handed to the line decoder: every "ssr://" removed, then the
      alphabet mapped. */
  function LineText(line: Bytes): (t: Bytes)
    ensures |t| <= |line|
    ensures Underscore !in t && Dash !in t
  {
    UrlToStd(ReplaceAll(line, Scheme, []))
  }

  /** The fixed local settings every parsed server gets. */
  predicate HasLocalDefaults(s: Server)
  {
    && s.localAddress == LocalAddress
    && s.localPort == LocalPort
    && s.timeout == Timeout
    && s.workers == Workers
    && s.plugin == []
  }

  /** `processServer`: decode the line, split it on ':', read field 1 as the
      port, and the password from field 5 up to its first '?'. The password's
      own decoding error is ignored, and what the decoder produced before
      the error is kept. */
  function ProcessServer(line: Bytes): (r: LineResult)
    ensures r.DecodeFailed? <==> !RawStdDecode(LineText(line)).ok
    ensures r.Parsed? ==> HasLocalDefaults(r.server)
    ensures r.Parsed? ==> MinInt64 <= r.server.serverPort <= MaxInt64
  {
    var data := RawStdDecode(LineText(line));
    if !data.ok then DecodeFailed else ProcessFields(Split(data.bytes, Colon))
  }

  /** The rest of `processServer`, from the fields of the decoded line: the
      port is read before field 5 is looked at, indexing past the fields or
      slicing at a missing '?' panics, and a parsed server takes its host,
      port and method from fields 0, 1 and 3. */
  function ProcessFields(fields: seq<Bytes>): (r: LineResult)
    ensures !r.DecodeFailed?
    ensures r.Skipped? <==> |fields| >= 2 && Atoi(fields[1]).None?
    ensures r.Panicked? <==>
      |fields| < 2 || (Atoi(fields[1]).Some? && (|fields| < 6 || Question !in fields[5]))
    ensures r.Parsed? ==>
      && HasLocalDefaults(r.server)
      && r.server.server == fields[0]
      && Atoi(fields[1]) == Some(r.server.serverPort)
      && r.server.cipher == fields[3]
  {
    if |fields| < 2 then Panicked
    else match Atoi(fields[1])
      case None => Skipped
      case Some(port) =>
        if |fields| < 6 then Panicked
        else
          var q := IndexByte(fields[5], Question);
          if q < 0 then Panicked
          else
            var password := StdDecode(fields[5][..q]).bytes;
            Parsed(Server(fields[0], LocalAddress, LocalPort, Timeout, Workers,
                          port, password, fields[3], [], 0.0))
  }

  /** The port is read before field 5 is looked at: a line whose field 1 is
      no integer is skipped, however few fields it has, and only then. */
  lemma SkipRule(line: Bytes)
    ensures ProcessServer(line) == Skipped <==>
      var data := RawStdDecode(LineText(line));
      data.ok && |Split(data.bytes, Colon)| >= 2 && Atoi(Split(data.bytes, Colon)[1]).None?
  {
  }

  /** The line panics exactly when it decodes but has fewer than two
      fields, or has a valid port but fewer than six fields or no '?' in
      field 5. */
  lemma PanicRule(line: Bytes)
    ensures ProcessServer(line) == Panicked <==>
      var data := RawStdDecode(LineText(line));
      var fields := Split(data.bytes, Colon);
      && data.ok
      && (|fields| < 2 || (Atoi(fields[1]).Some? && (|fields| < 6 || Question !in fields[5])))
  {
  }

  /** A line that still holds a byte outside the base64 alphabet after the
      replacements, a ':' of a leftover "ssr://" among them, is a decoding
      error that aborts the fetch. */
  lemma ForeignByteFails(line: Bytes, i: nat)
    requires i < |LineText(line)|
    requires !IsAlphabet(LineText(line)[i]) && !IsNewline(LineText(line)[i])
    ensures ProcessServer(line) == DecodeFailed
  {
    RawAccepts(LineText(line));
  }

  /** Removing "ssr://" everywhere can form a new "ssr://" from the pieces
      around a removed one. */
  lemma SchemeCanReform(s: Bytes, t: Bytes)
    requires t == [114, 58, 47, 47] && s == [115, 115] + Scheme + t
    ensures ReplaceAll(s, Scheme, []) == Scheme
  {
    assert ReplaceAll(s[2..], Scheme, []) == t by {
      assert s[2..] == Scheme + t;
      ReplaceAtStart(Scheme, t, []);
    }
    assert ReplaceAll(s[1..], Scheme, []) == [115] + t by {
      assert s[1..][..6][2] != Scheme[2];
      assert s[1..][1..] == s[2..];
    }
    assert s[..6][2] != Scheme[2];
  }

  // ----- The publisher's side of a line -----

  /** A subscription entry as its publisher describes it. */
  datatype Entry = Entry(host: Bytes, port: int, protocol: Bytes, cipher: Bytes,
                         obfs: Bytes, password: Bytes, params: Bytes)

  /** The entry's text fields hold no ':' and its port is a 64-bit integer. */
  predicate WellFormed(e: Entry)
  {
    && Colon !in e.host && Colon !in e.protocol && Colon !in e.cipher && Colon !in e.obfs
    && MinInt64 <= e.port <= MaxInt64
  }

  /** The password as published, in padded or unpadded base64. */
  function PasswordText(password: Bytes, padded: bool): (t: Bytes)
    ensures forall i :: 0 <= i < |t| ==> IsAlphabet(t[i]) || t[i] == Pad
  {
    if padded then EncodePadded(password) else EncodeRaw(password)
  }

  /** `host:port:protocol:method:obfs:password?params`. */
  function EntryText(e: Entry, padded: bool): Bytes
  {
    Join([e.host, Itoa(e.port), e.protocol, e.cipher, e.obfs]
         + [PasswordText(e.password, padded) + [Question] + e.params], Colon)
  }

  /** The `ssr://` line for an entry. */
  function EncodeLine(e: Entry, padded: bool): Bytes
  {
    Scheme + StdToUrl(EncodeRaw(EntryText(e, padded)))
  }

  /** The server `processServer` should make of an entry. */
  function EntryServer(e: Entry, password: Bytes): Server
  {
    Server(e.host, LocalAddress, LocalPort, Timeout, Workers, e.port, password, e.cipher, [], 0.0)
  }

  /** Text without ':' holds no "ssr://". */
  lemma NoSchemeWithoutColon(u: Bytes)
    requires forall i :: 0 <= i < |u| ==> u[i] != Colon
    ensures forall i :: 0 <= i <= |u| ==> !OccursAt(Scheme, u, i)
  {
    forall i | 0 <= i <= |u| ensures !OccursAt(Scheme, u, i) {
      if i + 6 <= |u| {
        assert u[i..i + 6][3] == u[i + 3];
      }
    }
  }

  /** The text of an encoded line, back from the line. */
  lemma LineTextOfEncoded(e: Entry, padded: bool)
    ensures LineText(EncodeLine(e, padded)) == EncodeRaw(EntryText(e, padded))
  {
    var b := EncodeRaw(EntryText(e, padded));
    var u := StdToUrl(b);
    ReplaceAtStart(Scheme, u, []);
    forall i | 0 <= i < |u| ensures u[i] != Colon {
      assert IsAlphabet(b[i]);
    }
    NoSchemeWithoutColon(u);
    ReplaceAbsent(u, Scheme, []);
    assert [] + u == u;
    assert Underscore !in b && Dash !in b by {
      forall i | 0 <= i < |b| ensures b[i] != Underscore && b[i] != Dash {
        assert IsAlphabet(b[i]);
      }
    }
    UrlRoundTrip(b);
  }

  /** The first piece of a split reaches past a prefix without the separator. */
  lemma SplitHead(a: Bytes, sep: byte, b: Bytes)
    requires sep !in a
    ensures |Split(a + b, sep)[0]| >= |a|
    ensures Split(a + b, sep)[0] == (a + b)[..|Split(a + b, sep)[0]|]
  {
    var s := a + b;
    assert s[..|a|] == a;
  }

  /** The decimal text of an integer holds no ':'. */
  lemma ItoaNoColon(n: int)
    ensures Colon !in Itoa(n)
  {
    if n < 0 {
      assert Itoa(n)[1..] == Decimal(-n);
    }
  }

  /** The password field runs at least to its '?', the first '?' in it. */
  lemma PasswordField(pw: Bytes, params: Bytes)
    requires forall i :: 0 <= i < |pw| ==> IsAlphabet(pw[i]) || pw[i] == Pad
    ensures var f := Split(pw + [Question] + params, Colon)[0];
      IndexByte(f, Question) == |pw| && f[..|pw|] == pw
  {
    var head := pw + [Question];
    assert Colon !in head && Question !in pw by {
      forall i | 0 <= i < |pw| ensures pw[i] != Colon && pw[i] != Question {
        assert IsAlphabet(pw[i]) || pw[i] == Pad;
      }
    }
    assert pw + [Question] + params == head + params;
    SplitHead(head, Colon, params);
    var f := Split(head + params, Colon)[0];
    assert f[..|head|] == head;
    assert f[..|head|][..|pw|] == f[..|pw|];
    assert f[|pw|] == Question;
  }

  /** The fields of an entry's text: the five before the password, then
      the pieces of the rest. */
  lemma EntryFields(e: Entry, padded: bool)
    requires WellFormed(e)
    ensures Split(EntryText(e, padded), Colon)
      == [e.host, Itoa(e.port), e.protocol, e.cipher, e.obfs]
         + Split(PasswordText(e.password, padded) + [Question] + e.params, Colon)
  {
    var parts := [e.host, Itoa(e.port), e.protocol, e.cipher, e.obfs];
    var last := PasswordText(e.password, padded) + [Question] + e.params;
    assert forall i :: 0 <= i < |parts| ==> Colon !in parts[i] by {
      ItoaNoColon(e.port);
    }
    assert EntryText(e, padded) == Join(parts + [last], Colon);
    SplitJoinPrefix(parts, last, Colon);
  }

  /** Round trip through `processServer`: the line for a well-formed entry
      parses to the entry's host, port, method and password, with the local
      defaults. A password published in unpadded base64 loses the bytes of
      its final partial group, since the password is decoded with padding
      and the decoding error is ignored. */
  lemma ProcessEncodedLine(e: Entry, padded: bool)
    requires WellFormed(e)
    ensures ProcessServer(EncodeLine(e, padded))
      == Parsed(EntryServer(e, if padded then e.password else WholeGroups(e.password)))
  {
    var text := EntryText(e, padded);
    assert RawStdDecode(LineText(EncodeLine(e, padded))) == Decoded(text, true) by {
      LineTextOfEncoded(e, padded);
      RawRoundTrip(text);
    }
    EntryRecord(e, padded);
  }

  /** The fields of an entry's text make the entry's server. */
  lemma EntryRecord(e: Entry, padded: bool)
    requires WellFormed(e)
    ensures ProcessFields(Split(EntryText(e, padded), Colon))
      == Parsed(EntryServer(e, if padded then e.password else WholeGroups(e.password)))
  {
    var pw := PasswordText(e.password, padded);
    var password := if padded then e.password else WholeGroups(e.password);
    var fields := Split(EntryText(e, padded), Colon);
    var f5 := Split(pw + [Question] + e.params, Colon)[0];
    assert |fields| >= 6 && fields[0] == e.host && fields[1] == Itoa(e.port)
        && fields[3] == e.cipher && fields[5] == f5 by {
      EntryFields(e, padded);
    }
    assert Atoi(fields[1]) == Some(e.port) by {
      AtoiItoa(e.port);
    }
    assert IndexByte(f5, Question) == |pw| && f5[..|pw|] == pw by {
      PasswordField(pw, e.params);
    }
    assert StdDecode(pw).bytes == password by {
      if padded {
        PaddedRoundTrip(e.password);
      } else {
        PaddedDecodeOfRaw(e.password);
      }
    }
    FieldsRecord(fields, e.port, password);
  }

  /** Fields whose port parses and whose sixth field holds a '?' make a
      server from the host, port, method and decoded password. */
  lemma FieldsRecord(fields: seq<Bytes>, port: int, password: Bytes)
    requires |fields| >= 6 && Atoi(fields[1]) == Some(port)
    requires IndexByte(fields[5], Question) >= 0
    requires StdDecode(fields[5][..IndexByte(fields[5], Question)]).bytes == password
    ensures ProcessFields(fields)
      == Parsed(Server(fields[0], LocalAddress, LocalPort, Timeout, Workers, port, password, fields[3], [], 0.0))
  {
  }

  /** The smallest case of that loss: "pw" published as "cHc" parses to an
      empty password. */
  lemma TwoBytePasswordLost(e: Entry)
    requires WellFormed(e) && e.password == [112, 119]
    ensures ProcessServer(EncodeLine(e, false)) == Parsed(EntryServer(e, []))
  {
    ProcessEncodedLine(e, false);
  }

  // ----- The feed stage of GetServerList -----

  /** What the feed stage of `GetServerList` returns: the parsed servers, an
      error, or a panic raised by `processServer`. */
  datatype FeedResult = FeedOk(servers: seq<Server>) | FeedFailed | FeedPanicked

  /** What the loop sees of one line: an empty line, skipped without being
      parsed, or what `processServer` made of it. */
  datatype Outcome = Empty | Line(result: LineResult)

  function OutcomeOf(line: Bytes): Outcome
  {
    if line == [] then Empty else Line(ProcessServer(line))
  }

  function Outcomes(lines: seq<Bytes>): seq<Outcome>
  {
    seq(|lines|, i requires 0 <= i < |lines| => OutcomeOf(lines[i]))
  }

  /** An outcome that ends the loop: a decoding error or a panic. */
  predicate Fatal(o: Outcome)
  {
    o.Line? && (o.result.DecodeFailed? || o.result.Panicked?)
  }

  /** One turn of the loop: empty lines and unparsed ports change nothing,
      a parsed server is appended, a fatal line ends the loop. */
  function Step(prev: FeedResult, o: Outcome): FeedResult
  {
    if !prev.FeedOk? then prev
    else match o
      case Empty => prev
      case Line(Parsed(s)) => FeedOk(prev.servers + [s])
      case Line(Skipped) => prev
      case Line(DecodeFailed) => FeedFailed
      case Line(Panicked) => FeedPanicked
  }

  /** The loop over the lines, as a function of the outcomes seen so far. */
  function Loop(os: seq<Outcome>): FeedResult
    decreases |os|
  {
    if os == [] then FeedOk([]) else Step(Loop(os[..|os| - 1]), os[|os| - 1])
  }

  /** The feed stage: map the alphabet, decode the whole feed (a failure is
      the fetch's error), split it into lines and run the loop. */
  function Feed(body: Bytes): FeedResult
  {
    var data := RawStdDecode(UrlToStd(body));
    if !data.ok then FeedFailed else Loop(Outcomes(Split(data.bytes, LF)))
  }

  /** The loop after one more line. */
  lemma LoopNext(os: seq<Outcome>, i: nat)
    requires i < |os|
    ensures Loop(os[..i + 1]) == Step(Loop(os[..i]), os[i])
  {
    assert os[..i + 1][..i] == os[..i];
  }

  /** Once a line has ended the loop, later lines change nothing. */
  lemma {:induction false} AbortSticks(os: seq<Outcome>, i: nat)
    requires i <= |os| && !Loop(os[..i]).FeedOk?
    ensures Loop(os) == Loop(os[..i])
    decreases |os| - i
  {
    if i < |os| {
      LoopNext(os, i);
      AbortSticks(os, i + 1);
    } else {
      assert os[..i] == os;
    }
  }

  /** The feed stage of `GetServerList`, the loop as the source runs it. */
  method ParseFeed(body: Bytes) returns (r: FeedResult)
    ensures r == Feed(body)
  {
    var strData := UrlToStd(body);
    var data := RawStdDecode(strData);
    if !data.ok {
      return FeedFailed;
    }
    var rss := Split(data.bytes, LF);
    ghost var os := Outcomes(rss);
    var sl: seq<Server> := [];
    var i := 0;
    while i < |rss|
      invariant 0 <= i <= |rss|
      invariant Loop(os[..i]) == FeedOk(sl)
    {
      LoopNext(os, i);
      if rss[i] != [] {
        var s := ProcessServer(rss[i]);
        match s {
          case DecodeFailed =>
            AbortSticks(os, i + 1);
            return FeedFailed;
          case Panicked =>
            AbortSticks(os, i + 1);
            return FeedPanicked;
          case Skipped =>
          case Parsed(server) =>
            sl := sl + [server];
        }
      }
      i := i + 1;
    }
    assert os[..i] == os;
    r := FeedOk(sl);
  }

  // ----- What the loop promises -----

  /** The servers of the lines that parse, in the order of the lines. */
  function Accepted(os: seq<Outcome>): seq<Server>
    decreases |os|
  {
    if os == [] then []
    else
      (if os[0].Line? && os[0].result.Parsed? then [os[0].result.server] else [])
      + Accepted(os[1..])
  }

  /** The number of non-empty lines. */
  function NonEmpty(os: seq<Outcome>): nat
    decreases |os|
  {
    if os == [] then 0 else (if os[0].Line? then 1 else 0) + NonEmpty(os[1..])
  }

  /** Accepting lines one after another keeps their order. */
  lemma {:induction false} AcceptedAppend(a: seq<Outcome>, b: seq<Outcome>)
    ensures Accepted(a + b) == Accepted(a) + Accepted(b)
    decreases |a|
  {
    if a != [] {
      assert (a + b)[1..] == a[1..] + b;
      AcceptedAppend(a[1..], b);
    } else {
      assert a + b == b;
    }
  }

  /** The loop succeeds exactly when no line is fatal, and then returns the
      servers of the parsed lines in input order. */
  lemma {:induction false} LoopResult(os: seq<Outcome>)
    ensures Loop(os).FeedOk? <==> forall i :: 0 <= i < |os| ==> !Fatal(os[i])
    ensures Loop(os).FeedOk? ==> Loop(os).servers == Accepted(os)
    decreases |os|
  {
    if os != [] {
      var n := |os| - 1;
      var init := os[..n];
      LoopResult(init);
      assert os == init + [os[n]];
      AcceptedAppend(init, [os[n]]);
      assert [os[n]][1..] == os[n..][1..];
      if Loop(init).FeedOk? {
        assert forall i :: 0 <= i < n ==> !Fatal(init[i]);
      } else {
        var j :| 0 <= j < |init| && Fatal(init[j]);
        assert Fatal(os[j]);
      }
    }
  }

  /** The first fatal line decides which error the loop returns. */
  lemma LoopError(os: seq<Outcome>, k: nat)
    requires k < |os| && Fatal(os[k])
    requires forall i :: 0 <= i < k ==> !Fatal(os[i])
    ensures Loop(os) == if os[k].result.DecodeFailed? then FeedFailed else FeedPanicked
  {
    LoopResult(os[..k]);
    assert forall i :: 0 <= i < k ==> os[..k][i] == os[i];
    LoopNext(os, k);
    AbortSticks(os, k + 1);
  }

  /** Every line yields at most one server. */
  lemma {:induction false} AcceptedBound(os: seq<Outcome>)
    ensures |Accepted(os)| <= NonEmpty(os)
    decreases |os|
  {
    if os != [] {
      AcceptedBound(os[1..]);
    }
  }

  /** The loop keeps only servers that `processServer` produced. */
  lemma {:induction false} AcceptedFrom(os: seq<Outcome>)
    ensures forall s :: s in Accepted(os) ==>
      exists i :: 0 <= i < |os| && os[i] == Line(Parsed(s))
    decreases |os|
  {
    if os != [] {
      AcceptedFrom(os[1..]);
      forall s | s in Accepted(os)
        ensures exists i :: 0 <= i < |os| && os[i] == Line(Parsed(s))
      {
        if s !in Accepted(os[1..]) {
          assert os[0] == Line(Parsed(s));
        } else {
          var i :| 0 <= i < |os[1..]| && os[1..][i] == Line(Parsed(s));
          assert os[i + 1] == Line(Parsed(s));
        }
      }
    }
  }

  /** The feed stage succeeds exactly when the feed decodes and no line is
      fatal; it then returns at most one server per non-empty line, each
      parsed from one of the lines and carrying the local defaults, in the
      order of the lines. */
  lemma FeedOkShape(body: Bytes)
    requires Feed(body).FeedOk?
    ensures var os := Outcomes(Split(RawStdDecode(UrlToStd(body)).bytes, LF));
      && (forall i :: 0 <= i < |os| ==> !Fatal(os[i]))
      && Feed(body).servers == Accepted(os)
      && |Feed(body).servers| <= NonEmpty(os)
      && forall s :: s in Feed(body).servers ==> HasLocalDefaults(s)
  {
    var lines := Split(RawStdDecode(UrlToStd(body)).bytes, LF);
    var os := Outcomes(lines);
    assert Feed(body) == Loop(os);
    LoopResult(os);
    AcceptedBound(os);
    AcceptedFrom(os);
    forall s | s in Feed(body).servers ensures HasLocalDefaults(s) {
      var i :| 0 <= i < |os| && os[i] == Line(Parsed(s));
      assert os[i] == OutcomeOf(lines[i]);
    }
  }

  /** The feed stage fails when the whole feed does not decode, and
      otherwise ends with the first fatal line: an error for a line that does
      not decode, a panic for a malformed one. */
  lemma FeedError(body: Bytes, k: nat)
    ensures !RawStdDecode(UrlToStd(body)).ok ==> Feed(body) == FeedFailed
    ensures var os := Outcomes(Split(RawStdDecode(UrlToStd(body)).bytes, LF));
      RawStdDecode(UrlToStd(body)).ok && k < |os| && Fatal(os[k])
      && (forall i :: 0 <= i < k ==> !Fatal(os[i])) ==>
        Feed(body) == if os[k].result.DecodeFailed? then FeedFailed else FeedPanicked
  {
    var os := Outcomes(Split(RawStdDecode(UrlToStd(body)).bytes, LF));
    if k < |os| && Fatal(os[k]) && (forall i :: 0 <= i < k ==> !Fatal(os[i])) {
      LoopError(os, k);
    }
  }

  // ----- A whole feed, end to end -----

  /** The lines a publisher writes for a list of entries, passwords padded. */
  function EncodeLines(es: seq<Entry>): seq<Bytes>
  {
    if es == [] then [] else [EncodeLine(es[0], true)] + EncodeLines(es[1..])
  }

  /** The servers those entries describe. */
  function EntryServers(es: seq<Entry>): seq<Server>
  {
    if es == [] then [] else [EntryServer(es[0], es[0].password)] + EntryServers(es[1..])
  }

  /** Line `i` of the feed is entry `i`'s line. */
  lemma {:induction false} EncodeLinesAt(es: seq<Entry>)
    ensures |EncodeLines(es)| == |es|
    ensures forall i :: 0 <= i < |es| ==> EncodeLines(es)[i] == EncodeLine(es[i], true)
    decreases |es|
  {
    if es != [] {
      EncodeLinesAt(es[1..]);
      forall i | 1 <= i < |es| ensures EncodeLines(es)[i] == EncodeLine(es[i], true) {
        assert EncodeLines(es)[i] == EncodeLines(es[1..])[i - 1];
        assert es[1..][i - 1] == es[i];
      }
    }
  }

  /** Server `i` is the one entry `i` describes. */
  lemma {:induction false} EntryServersAt(es: seq<Entry>)
    ensures |EntryServers(es)| == |es|
    ensures forall i :: 0 <= i < |es| ==> EntryServers(es)[i] == EntryServer(es[i], es[i].password)
    decreases |es|
  {
    if es != [] {
      EntryServersAt(es[1..]);
      forall i | 1 <= i < |es| ensures EntryServers(es)[i] == EntryServer(es[i], es[i].password) {
        assert EntryServers(es)[i] == EntryServers(es[1..])[i - 1];
        assert es[1..][i - 1] == es[i];
      }
    }
  }

  /** The feed a publisher serves for a list of entries. */
  function EncodeFeed(es: seq<Entry>): Bytes
  {
    StdToUrl(EncodeRaw(Join(EncodeLines(es), LF)))
  }

  /** An encoded line is neither empty nor holds a line feed. */
  lemma EncodedLineShape(e: Entry)
    ensures EncodeLine(e, true) != [] && LF !in EncodeLine(e, true)
  {
    var b := EncodeRaw(EntryText(e, true));
    var u := StdToUrl(b);
    forall j | 0 <= j < |u| ensures u[j] != LF {
      assert IsAlphabet(b[j]);
    }
    assert EncodeLine(e, true) == Scheme + u;
  }

  /** Lines that all parse make the loop return their servers, in order. */
  lemma {:induction false} LoopAllParsed(os: seq<Outcome>, servers: seq<Server>)
    requires |os| == |servers|
    requires forall i :: 0 <= i < |os| ==> os[i] == Line(Parsed(servers[i]))
    ensures Loop(os) == FeedOk(servers)
    decreases |os|
  {
    if os != [] {
      var n := |os| - 1;
      LoopAllParsed(os[..n], servers[..n]);
      assert servers == servers[..n] + [servers[n]];
    }
  }

  /** The loop over the lines of well-formed entries accepts them all. */
  lemma ParseEncodedLines(es: seq<Entry>)
    requires forall i :: 0 <= i < |es| ==> WellFormed(es[i])
    ensures Loop(Outcomes(EncodeLines(es))) == FeedOk(EntryServers(es))
  {
    var lines := EncodeLines(es);
    var os := Outcomes(lines);
    var servers := EntryServers(es);
    EncodeLinesAt(es);
    EntryServersAt(es);
    forall i | 0 <= i < |os| ensures os[i] == Line(Parsed(servers[i])) {
      EncodedLineShape(es[i]);
      ProcessEncodedLine(es[i], true);
    }
    LoopAllParsed(os, servers);
  }

  /** The publisher's feed decodes to its lines joined by line feeds. */
  lemma FeedDecodes(es: seq<Entry>)
    ensures RawStdDecode(UrlToStd(EncodeFeed(es))) == Decoded(Join(EncodeLines(es), LF), true)
  {
    var text := Join(EncodeLines(es), LF);
    var b := EncodeRaw(text);
    assert Underscore !in b && Dash !in b by {
      forall i | 0 <= i < |b| ensures b[i] != Underscore && b[i] != Dash {
        assert IsAlphabet(b[i]);
      }
    }
    UrlRoundTrip(b);
    RawRoundTrip(text);
  }

  /** Splitting the decoded feed gives the publisher's lines back. */
  lemma FeedSplits(es: seq<Entry>)
    requires es != []
    ensures Split(Join(EncodeLines(es), LF), LF) == EncodeLines(es)
  {
    var lines := EncodeLines(es);
    EncodeLinesAt(es);
    forall i | 0 <= i < |lines| ensures LF !in lines[i] {
      EncodedLineShape(es[i]);
    }
    SplitJoin(lines, LF);
  }

  /** The decoded feed for well-formed entries, split into lines and run
      through the loop, yields their servers, in order. */
  lemma LinesRoundTrip(es: seq<Entry>)
    requires forall i :: 0 <= i < |es| ==> WellFormed(es[i])
    ensures Loop(Outcomes(Split(Join(EncodeLines(es), LF), LF))) == FeedOk(EntryServers(es))
  {
    var text := Join(EncodeLines(es), LF);
    if es == [] {
      assert text == [];
      NoLines();
    } else {
      assert Split(text, LF) == EncodeLines(es) by {
        FeedSplits(es);
      }
      ParseEncodedLines(es);
    }
  }

  /** An empty body is one empty line, which the loop skips. */
  lemma NoLines()
    ensures Loop(Outcomes(Split([], LF))) == FeedOk([])
  {
    assert Split([], LF) == [[]];
    assert Outcomes([[]]) == [Empty];
    assert Loop([Empty]) == Step(Loop([]), Empty);
  }

  /** Round trip through the feed stage: the feed for well-formed entries
      yields their servers, in order. */
  lemma FeedRoundTrip(es: seq<Entry>)
    requires forall i :: 0 <= i < |es| ==> WellFormed(es[i])
    ensures Feed(EncodeFeed(es)) == FeedOk(EntryServers(es))
  {
    FeedDecodes(es);
    LinesRoundTrip(es);
  }
}
