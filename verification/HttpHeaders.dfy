/**
 * What the headers of a message announce about its body, to the sender who looks one up by its
 * name and to the parser who takes them one by one (section 4.4 of RFC 2616).
 */
module HttpHeaders {
  import opened Util
  import opened HttpText
  import opened HttpParser
  import opened HttpPrinter

  const HH_CONTENT_LENGTH: string := "Content-Length"
  const HH_TRANSFER_ENCODING: string := "Transfer-Encoding"

  predicate Named(h: Header, name: string) { EqualsIgnoreCase(h.name, name) }

  /** HttpData::hasHeader: the value of the first header of that name. */
  function HasHeader(headers: seq<Header>, name: string): Option<string> {
    if headers == [] then None
    else if Named(headers[0], name) then Some(headers[0].value)
    else HasHeader(headers[1..], name)
  }

  predicate FirstNamed(headers: seq<Header>, name: string, k: nat) {
    k < |headers| && Named(headers[k], name) && forall i :: 0 <= i < k ==> !Named(headers[i], name)
  }

  /** A header is found exactly when there is one of that name, in whatever case; and it is the first of them. */
  lemma {:induction false} HasHeaderMeans(headers: seq<Header>, name: string)
    ensures HasHeader(headers, name) == None <==> forall h :: h in headers ==> !Named(h, name)
    ensures HasHeader(headers, name) != None ==> exists k: nat :: FirstNamed(headers, name, k)
    ensures forall k: nat :: FirstNamed(headers, name, k) ==> HasHeader(headers, name) == Some(headers[k].value)
  {
    hide Named;
    if headers != [] {
      var rest := headers[1..];
      HasHeaderMeans(rest, name);
      assert headers == [headers[0]] + rest;
      assert forall i :: 0 < i < |headers| ==> headers[i] == rest[i - 1];
      if Named(headers[0], name) {
        assert FirstNamed(headers, name, 0);
      } else if HasHeader(rest, name) != None {
        var k: nat :| FirstNamed(rest, name, k);
        assert FirstNamed(headers, name, k + 1);
      }
      forall k: nat | FirstNamed(headers, name, k) ensures HasHeader(headers, name) == Some(headers[k].value) {
        if k > 0 {
          assert FirstNamed(rest, name, k - 1);
        }
      }
    }
  }

  /** The one header of that name is headers[k]. */
  predicate Sole(headers: seq<Header>, k: nat, name: string) {
    k < |headers| && Named(headers[k], name) && forall i :: 0 <= i < |headers| && i != k ==> !Named(headers[i], name)
  }

  predicate NoneNamed(headers: seq<Header>, name: string) {
    forall i :: 0 <= i < |headers| ==> !Named(headers[i], name)
  }

  // ---- Headers on their way ----------------------------------------------

  lemma {:induction false} SentNone(headers: seq<Header>, name: string)
    requires NoneNamed(headers, name)
    ensures NoneNamed(Sent(headers), name)
  {
    hide Named, Fits;
    if headers != [] {
      var n := |headers| - 1;
      assert forall i :: 0 <= i < n ==> headers[..n][i] == headers[i];
      SentNone(headers[..n], name);
    }
  }

  /** A header that fits stays the only one of its name when the others are sent, or not. */
  lemma {:induction false} SentSole(headers: seq<Header>, k: nat, name: string) returns (j: nat)
    requires Sole(headers, k, name) && Fits(headers[k])
    ensures Sole(Sent(headers), j, name) && Sent(headers)[j] == headers[k]
  {
    hide Named, Fits;
    var n := |headers| - 1;
    var before := headers[..n];
    assert forall i :: 0 <= i < n ==> before[i] == headers[i];
    if k == n {
      SentNone(before, name);
      j := |Sent(before)|;
    } else {
      j := SentSole(before, k, name);
    }
  }

  // ---- What the parser takes from them -----------------------------------

  /** The parser does not refuse this header. */
  predicate Understood(h: Header) {
    && (Named(h, HH_CONTENT_LENGTH) ==> ScanUnsigned(h.value) != None)
    && (Named(h, HH_TRANSFER_ENCODING) ==>
          EqualsIgnoreCase(h.value, "chunked") || EqualsIgnoreCase(h.value, "identity"))
  }

  lemma OneName(h: Header)
    ensures !(Named(h, HH_CONTENT_LENGTH) && Named(h, HH_TRANSFER_ENCODING))
  {
    assert |HH_CONTENT_LENGTH| == 14 && |HH_TRANSFER_ENCODING| == 17;
  }

  lemma OneCoding(value: string)
    ensures !(EqualsIgnoreCase(value, "chunked") && EqualsIgnoreCase(value, "identity"))
  {
    assert |"chunked"| == 7 && |"identity"| == 8;
  }

  /** One header, as far as the body is concerned. */
  lemma TakenHeader(v: View, h: Header)
    requires v.done == None
    ensures var w := TakeHeader(v, h);
      && (w.done == None <==> Understood(h))
      && (w.done == None ==>
            && w.chunked == (if Named(h, HH_TRANSFER_ENCODING) then EqualsIgnoreCase(h.value, "chunked") else v.chunked)
            && (if Named(h, HH_CONTENT_LENGTH) then ScanUnsigned(h.value) == Some(w.size) else w.size == v.size))
  {
    hide EqualsIgnoreCase, ScanUnsigned;
    OneName(h);
    OneCoding(h.value);
    HeaderMeans(v, h);
  }

  /** A list of headers is taken exactly when each of them is understood. */
  lemma {:induction false} TakenIff(v: View, headers: seq<Header>)
    requires v.done == None
    ensures TakeHeaders(v, headers).done == None <==> forall h :: h in headers ==> Understood(h)
  {
    hide TakeHeader, Understood;
    if headers != [] {
      var n := |headers| - 1;
      var w := TakeHeaders(v, headers[..n]);
      TakenIff(v, headers[..n]);
      assert headers == headers[..n] + [headers[n]];
      if w.done == None { TakenHeader(w, headers[n]); }
    }
  }

  /** Without a header of its own, a property of the body stays as it was. */
  lemma {:induction false} TakenNone(v: View, headers: seq<Header>)
    requires v.done == None && TakeHeaders(v, headers).done == None
    ensures NoneNamed(headers, HH_TRANSFER_ENCODING) ==> TakeHeaders(v, headers).chunked == v.chunked
    ensures NoneNamed(headers, HH_CONTENT_LENGTH) ==> TakeHeaders(v, headers).size == v.size
  {
    hide TakeHeader, Named;
    if headers != [] {
      var n := |headers| - 1;
      assert forall i :: 0 <= i < n ==> headers[..n][i] == headers[i];
      TakenNone(v, headers[..n]);
      TakenHeader(TakeHeaders(v, headers[..n]), headers[n]);
    }
  }

  /** The only header of its name decides, wherever it stands. */
  lemma {:induction false} TakenSole(v: View, headers: seq<Header>, k: nat)
    requires v.done == None && TakeHeaders(v, headers).done == None && k < |headers|
    ensures Sole(headers, k, HH_TRANSFER_ENCODING) ==>
      TakeHeaders(v, headers).chunked == EqualsIgnoreCase(headers[k].value, "chunked")
    ensures Sole(headers, k, HH_CONTENT_LENGTH) ==>
      ScanUnsigned(headers[k].value) == Some(TakeHeaders(v, headers).size)
  {
    hide TakeHeader, Named, EqualsIgnoreCase, ScanUnsigned;
    var n := |headers| - 1;
    assert forall i :: 0 <= i < n ==> headers[..n][i] == headers[i];
    if k < n { TakenSole(v, headers[..n], k); }
    TakenHeader(TakeHeaders(v, headers[..n]), headers[n]);
  }

  // ---- What a message announces ------------------------------------------

  /** The message has one header of that name, and that value; it can be sent. */
  predicate Announces(headers: seq<Header>, name: string, value: string) {
    exists k :: 0 <= k < |headers| && Sole(headers, k, name) && Fits(headers[k]) && headers[k].value == value
  }

  lemma SoleInside(headers: seq<Header>, k: nat, name: string)
    requires Sole(headers, k, name)
    ensures k < |headers|
    ensures FirstNamed(headers, name, k)
  {
  }

  /** Chunks, for the receiver: the value may be in any case. */
  lemma CodingAnnounced(leader: string, headers: seq<Header>, value: string)
    requires AfterHeaders(leader, headers).done == None && Announces(headers, HH_TRANSFER_ENCODING, value)
    ensures AfterHeaders(leader, headers).chunked <==> EqualsIgnoreCase(value, "chunked")
  {
    hide Sole, Fits, TakeHeaders, EqualsIgnoreCase;
    var k :| 0 <= k < |headers| && Sole(headers, k, HH_TRANSFER_ENCODING) && Fits(headers[k])
             && headers[k].value == value;
    var j := SentSole(headers, k, HH_TRANSFER_ENCODING);
    SoleInside(Sent(headers), j, HH_TRANSFER_ENCODING);
    TakenSole(AfterLeader(leader), Sent(headers), j);
  }

  /** What setDocumentAndLength prints: "%d", for which a length of 2^31 and more is negative. */
  function ContentLength(n: size_t): string {
    if n < 0x8000_0000 then Decimal(n) else "-" + Decimal(0x1_0000_0000 - n)
  }

  /** Section 14.13 of RFC 2616 wants digits alone; that is what is printed exactly below 2^31. */
  lemma DigitsAloneIff(n: size_t)
    ensures (forall c :: c in ContentLength(n) ==> IsDecimal(c)) <==> n < 0x8000_0000
  {
    hide Decimal;
    DecimalValue(n);
    if n >= 0x8000_0000 { assert ContentLength(n)[0] == '-' && '-' in ContentLength(n) && !IsDecimal('-'); }
  }

  /** It is read back as the length it was all the same, as is the number itself. */
  lemma ContentLengthReadsBack(n: size_t)
    ensures ScanUnsigned(ContentLength(n)) == Some(n) == ScanUnsigned(Decimal(n))
  {
    hide ScanUnsigned, Decimal;
    DecimalReadsBack("", "", n, "");
    assert "" + "" + Decimal(n) + "" == Decimal(n);
    if n >= 0x8000_0000 {
      var m: nat := 0x1_0000_0000 - n;
      DecimalReadsBack("", "-", m, "");
      assert "" + "-" + Decimal(m) + "" == "-" + Decimal(m);
    }
  }

  /** The message has one Content-Length header, with that number. */
  predicate AnnouncesLength(headers: seq<Header>, n: size_t) {
    Announces(headers, HH_CONTENT_LENGTH, ContentLength(n)) || Announces(headers, HH_CONTENT_LENGTH, Decimal(n))
  }

  /** A length: the number that the receiver will count down. */
  lemma LengthAnnounced(leader: string, headers: seq<Header>, n: size_t)
    requires AfterHeaders(leader, headers).done == None && AnnouncesLength(headers, n)
    ensures AfterHeaders(leader, headers).size == n
  {
    hide Sole, Fits, TakeHeaders, ScanUnsigned, Decimal, ContentLength;
    var k :| 0 <= k < |headers| && Sole(headers, k, HH_CONTENT_LENGTH) && Fits(headers[k])
             && (headers[k].value == ContentLength(n) || headers[k].value == Decimal(n));
    var j := SentSole(headers, k, HH_CONTENT_LENGTH);
    SoleInside(Sent(headers), j, HH_CONTENT_LENGTH);
    TakenSole(AfterLeader(leader), Sent(headers), j);
    ContentLengthReadsBack(n);
  }

  /** Nothing: no chunks, and no end but that of the connection. */
  lemma NothingAnnounced(leader: string, headers: seq<Header>)
    requires AfterHeaders(leader, headers).done == None
    ensures NoneNamed(headers, HH_TRANSFER_ENCODING) ==> !AfterHeaders(leader, headers).chunked
    ensures NoneNamed(headers, HH_CONTENT_LENGTH) ==> AfterHeaders(leader, headers).size == SIZE_UNKNOWN
  {
    hide NoneNamed, TakeHeaders;
    TakenNone(AfterLeader(leader), Sent(headers));
    if NoneNamed(headers, HH_TRANSFER_ENCODING) { SentNone(headers, HH_TRANSFER_ENCODING); }
    if NoneNamed(headers, HH_CONTENT_LENGTH) { SentNone(headers, HH_CONTENT_LENGTH); }
  }

  /** The owner of the parser lets the announced length stand. */
  ghost predicate KeepsLength(env: Env, leader: string, headers: seq<Header>, n: size_t) {
    env.headerComplete(leader, Sent(headers), false, n).size == n
  }

  /**
   * A message with a Content-Length header reads back, and ends exactly there: the length of its
   * body in decimal digits, no coding, and nothing else assumed about what the headers mean.
   */
  lemma SizedRoundTrip(env: Env, leader: string, headers: seq<Header>, body: string, suffix: string)
    requires Acceptable(env, leader, headers) && LeaderFits(leader) && env.hasDocument && |body| < SIZE_UNKNOWN
    requires AnnouncesLength(headers, |body|) && NoneNamed(headers, HH_TRANSFER_ENCODING)
    requires KeepsLength(env, leader, headers, |body|)
    ensures var message := Head(leader, headers) + body; var v := Feed(env, Initial, message + suffix);
      && v.leader == leader && v.headers == Sent(headers) && v.body == body
      && v.used == |message| && v.line == "" && v.done == Some(HE_NONE)
  {
    hide Feed, TakeHeaders, AnnouncesLength, NoneNamed, Head, Sent;
    LengthAnnounced(leader, headers, |body|);
    NothingAnnounced(leader, headers);
    TakeHeadersFrame(AfterLeader(leader), Sent(headers));
    assert [] + Sent(headers) == Sent(headers);
    SizedBody(env, leader, headers, body, suffix);
  }
}
