/** The message sent to the Kindle address: the fixed multipart/mixed
    template of cmd/root.go with the recipient, the file's base name (twice)
    and the base64 text of the file substituted for its four `%s` verbs. */
module Mime {
  import opened Substrings
  import Base64
  import PathBase
  import Results

  /** The multipart boundary; it consists of hexadecimal digits only. */
  const Boundary: string := "f403043895ccc776c6055e8fae42"

  /** The delimiter line opening the single body part. */
  const OpenDelimiter: string := "--" + Boundary + "\r\n"

  /** The delimiter line closing the multipart body. */
  const CloseDelimiter: string := "--" + Boundary + "--\r\n"

  /** The fixed Message-ID of every message sent. */
  const MessageId: string := "CAMgUg7badnLexYVc475ejJzeK97vdok9dKw23pisL6uWgur-Qw@mail.gmail.com"

  /** The template text before the recipient verb. */
  const Head: string := Headers + "To: "

  /** The message headers before the recipient's. */
  const Headers: string :=
    "MIME-Version: 1.0\r\n" +
    "Message-ID: <" + MessageId + ">\r\n" +
    "Date: Wed, 22 Nov 2017 10:21:29 +0000\r\n" +
    "Subject: For kindle\r\n" +
    "From: Charles Haynes <haynes@edgeplay.org>\r\n"

  /** The Content-Type header up to the boundary parameter's value. */
  const BoundaryParam: string := "Content-Type: multipart/mixed; boundary=\""

  /** The template text between the recipient and the opening delimiter. */
  const BeforeOpen: string :=
    "\r\n" +
    BoundaryParam + Boundary + "\"\r\n" +
    "\r\n"

  /** The body part's first header, up to the file name. */
  const PartHead: string := PartType + "\tname=\""

  /** The body part's content type header, up to its parameter. */
  const PartType: string := "Content-Type: application/octet-stream; \r\n"

  /** The template text between the recipient and the first file name. */
  const AfterTo: string := BeforeOpen + OpenDelimiter + PartHead

  /** The template text between the two file names. */
  const AfterName: string := "\"\r\n" + Disposition + "\tfilename=\""

  /** The body part's disposition header, up to its parameter. */
  const Disposition: string := "Content-Disposition: attachment; \r\n"

  /** The template text between the second file name and the payload. */
  const AfterFilename: string := "\"\r\n" + PartTrailer

  /** The rest of the body part's headers and the blank line ending them. */
  const PartTrailer: string :=
    "Content-Transfer-Encoding: base64\r\n" +
    "X-Attachment-Id: 15fe33f078e2fcfdb251\r\n" +
    "Content-ID: <15fe33f078e2fcfdb251>\r\n" +
    "\r\n"

  /** The template text after the payload. */
  const Tail: string := "\r\n" + CloseDelimiter

  /** Where, inside AfterTo, the boundary parameter and the opening
      delimiter's boundary start: after the line break and BoundaryParam,
      and after BeforeOpen and the delimiter's "--" (AnchorsCounted). */
  const ParamAt: nat := 43
  const DelimiterAt: nat := 78

  lemma AnchorsCounted()
    ensures ParamAt == |"\r\n"| + |BoundaryParam|
    ensures DelimiterAt == |BeforeOpen| + |"--"|
  {
  }

  lemma BoundaryIsHex()
    ensures AllHex(Boundary) && |Boundary| == 28
  {
  }

  /** Characters of the template pieces that no hexadecimal run can
      cross; each is read off the literal it belongs to. */
  lemma HeadPins()
    ensures Head[27] == 'I' && Head[31] == '<'
  {
    assert Head[27] == "Message-ID: <"[8];
    assert Head[31] == "Message-ID: <"[12];
  }

  lemma HeadPinsInId()
    ensures Head[57] == 'K' && Head[84] == 'm'
  {
    assert Head[57] == MessageId[25];
    assert Head[84] == MessageId[52];
  }

  lemma HeadPinsInDate()
    ensures Head[111] == ' ' && Head[139] == '\n'
  {
    assert Head[111] == "Date: Wed, 22 Nov 2017 10:21:29 +0000\r\n"[10];
    assert Head[139] == "Date: Wed, 22 Nov 2017 10:21:29 +0000\r\n"[38];
  }

  lemma HeadPinsInFrom()
    ensures Head[167] == 'C' && Head[195] == 'l'
  {
    assert Head[167] == "From: Charles Haynes <haynes@edgeplay.org>\r\n"[6];
    assert Head[195] == "From: Charles Haynes <haynes@edgeplay.org>\r\n"[34];
  }

  lemma NoBoundaryInHead(i: int)
    ensures !OccursAt(Head, Boundary, i)
  {
    BoundaryIsHex();
    HeadPins();
    HeadPinsInId();
    HeadPinsInDate();
    HeadPinsInFrom();
    if i < 0 {
    } else if i <= 27 { Pinned(Head, Boundary, i, 27); }
    else if i <= 31 { Pinned(Head, Boundary, i, 31); }
    else if i <= 57 { Pinned(Head, Boundary, i, 57); }
    else if i <= 84 { Pinned(Head, Boundary, i, 84); }
    else if i <= 111 { Pinned(Head, Boundary, i, 111); }
    else if i <= 139 { Pinned(Head, Boundary, i, 139); }
    else if i <= 167 { Pinned(Head, Boundary, i, 167); }
    else if i <= 195 { Pinned(Head, Boundary, i, 195); }
  }

  lemma AfterToPins()
    ensures AfterTo[27] == 'i' && AfterTo[42] == '"' && AfterTo[71] == '"'
    ensures AfterTo[77] == '-' && AfterTo[106] == '\r' && AfterTo[134] == 'o'
  {
    assert AfterTo[27] == BoundaryParam[25];
    assert AfterTo[42] == BoundaryParam[40];
    assert AfterTo[71] == "\"\r\n"[0];
    assert AfterTo[77] == OpenDelimiter[1];
    assert AfterTo[106] == OpenDelimiter[30];
    assert AfterTo[134] == PartType[26];
  }

  lemma ParamBoundary()
    ensures OccursAt(AfterTo, Boundary, ParamAt)
  {
    var p := "\r\n" + BoundaryParam;
    var rest := "\"\r\n" + "\r\n" + OpenDelimiter + PartHead;
    RegroupParam(p, Boundary, "\"\r\n", "\r\n", OpenDelimiter, PartHead);
    OccursInJoin(p, Boundary, rest, Boundary);
    AnchorsCounted();
  }

  lemma DelimiterBoundary()
    ensures OccursAt(AfterTo, Boundary, DelimiterAt)
  {
    RegroupDelimiter(BeforeOpen, "--", Boundary, "\r\n", PartHead);
    OccursInJoin(BeforeOpen + "--", Boundary, "\r\n" + PartHead, Boundary);
    AnchorsCounted();
  }

  lemma RegroupParam(p: string, b: string, d: string, e: string, f: string, g: string)
    ensures p + b + d + e + f + g == p + b + (d + e + f + g)
  {
  }

  lemma RegroupDelimiter(x: string, a: string, b: string, c: string, y: string)
    ensures x + (a + b + c) + y == (x + a) + b + (c + y)
  {
  }

  lemma BoundaryInAfterTo(i: int)
    ensures OccursAt(AfterTo, Boundary, i) <==> i == ParamAt || i == DelimiterAt
  {
    BoundaryIsHex();
    AfterToPins();
    if i < 0 {
    } else if i <= 27 { Pinned(AfterTo, Boundary, i, 27); }
    else if i <= 42 { Pinned(AfterTo, Boundary, i, 42); }
    else if i == 43 { ParamBoundary(); }
    else if i <= 71 { Pinned(AfterTo, Boundary, i, 71); }
    else if i <= 77 { Pinned(AfterTo, Boundary, i, 77); }
    else if i == 78 { DelimiterBoundary(); }
    else if i <= 106 { Pinned(AfterTo, Boundary, i, 106); }
    else if i <= 134 { Pinned(AfterTo, Boundary, i, 134); }
  }

  lemma AfterNamePins()
    ensures AfterName[2] == '\n' && AfterName[30] == 'm'
  {
    assert AfterName[2] == "\"\r\n"[2];
    assert AfterName[30] == Disposition[27];
  }

  lemma NoBoundaryInAfterName(i: int)
    ensures !OccursAt(AfterName, Boundary, i)
  {
    BoundaryIsHex();
    AfterNamePins();
    if i < 0 {
    } else if i <= 2 { Pinned(AfterName, Boundary, i, 2); }
    else if i <= 30 { Pinned(AfterName, Boundary, i, 30); }
  }

  lemma AfterFilenamePins()
    ensures AfterFilename[27] == 'g' && AfterFilename[54] == ' '
    ensures AfterFilename[76] == '\n' && AfterFilename[89] == '<'
  {
    assert AfterFilename[27] == "Content-Transfer-Encoding: base64\r\n"[24];
    assert AfterFilename[54] == "X-Attachment-Id: 15fe33f078e2fcfdb251\r\n"[16];
    assert AfterFilename[76] == "X-Attachment-Id: 15fe33f078e2fcfdb251\r\n"[38];
    assert AfterFilename[89] == "Content-ID: <15fe33f078e2fcfdb251>\r\n"[12];
  }

  lemma NoBoundaryInAfterFilename(i: int)
    ensures !OccursAt(AfterFilename, Boundary, i)
  {
    BoundaryIsHex();
    AfterFilenamePins();
    if i < 0 {
    } else if i <= 27 { Pinned(AfterFilename, Boundary, i, 27); }
    else if i <= 54 { Pinned(AfterFilename, Boundary, i, 54); }
    else if i <= 76 { Pinned(AfterFilename, Boundary, i, 76); }
    else if i <= 89 { Pinned(AfterFilename, Boundary, i, 89); }
  }

  lemma TailPins()
    ensures Tail[3] == '-' && Tail[32] == '-'
  {
    assert Tail[3] == CloseDelimiter[1];
    assert Tail[32] == CloseDelimiter[30];
  }

  lemma BoundaryInTail(i: int)
    ensures OccursAt(Tail, Boundary, i) <==> i == 4
  {
    BoundaryIsHex();
    TailPins();
    if i < 0 {
    } else if i <= 3 { Pinned(Tail, Boundary, i, 3); }
    else if i == 4 {
      assert Tail == "\r\n--" + Boundary + "--\r\n";
      OccursInJoin("\r\n--", Boundary, "--\r\n", Boundary);
    }
    else if i <= 32 { Pinned(Tail, Boundary, i, 32); }
  }

  /** A format with four `%s` verbs, given as the five texts around them. */
  datatype Template = Template(head: string, afterTo: string, afterName: string,
                               afterFilename: string, tail: string)

  /** msgFmt: the verbs stand for the recipient, the file name, the file
      name again and the payload. */
  const MsgFmt: Template := Template(Head, AfterTo, AfterName, AfterFilename, Tail)

  /** `fmt.Sprintf` of a template with four string arguments, the second
      and third being the same name. */
  function Fill(t: Template, to: string, name: string, payload: string): string
  {
    t.head + to + t.afterTo + name + t.afterName + name + t.afterFilename + payload + t.tail
  }

  /** Where the payload starts in a filled template. */
  function PayloadAt(t: Template, to: string, name: string): nat
  {
    |t.head| + |to| + |t.afterTo| + |name| + |t.afterName| + |name| + |t.afterFilename|
  }

  /** A filled template after the recipient, nested to the right. */
  function AfterRecipient(t: Template, name: string, payload: string): string
  {
    t.afterTo + (name + (t.afterName + (name + (t.afterFilename + (payload + t.tail)))))
  }

  lemma FillShape(t: Template, to: string, name: string, payload: string)
    ensures Fill(t, to, name, payload) == t.head + (to + AfterRecipient(t, name, payload))
  {
    var r7 := payload + t.tail;
    var r6 := t.afterFilename + r7;
    var r5 := name + r6;
    var r4 := t.afterName + r5;
    var r3 := name + r4;
    var r2 := t.afterTo + r3;
    var r1 := to + r2;
    var h := t.head;
    calc {
      Fill(t, to, name, payload);
      h + to + t.afterTo + name + t.afterName + name + t.afterFilename + payload + t.tail;
      { Assoc(h + to + t.afterTo + name + t.afterName + name + t.afterFilename, payload, t.tail); }
      h + to + t.afterTo + name + t.afterName + name + t.afterFilename + r7;
      { Assoc(h + to + t.afterTo + name + t.afterName + name, t.afterFilename, r7); }
      h + to + t.afterTo + name + t.afterName + name + r6;
      { Assoc(h + to + t.afterTo + name + t.afterName, name, r6); }
      h + to + t.afterTo + name + t.afterName + r5;
      { Assoc(h + to + t.afterTo + name, t.afterName, r5); }
      h + to + t.afterTo + name + r4;
      { Assoc(h + to + t.afterTo, name, r4); }
      h + to + t.afterTo + r3;
      { Assoc(h + to, t.afterTo, r3); }
      h + to + r2;
      { Assoc(h, to, r2); }
      h + r1;
    }
  }

  /** A filled template from the text before the payload on. */
  lemma FillEnd(t: Template, to: string, name: string, payload: string)
    ensures var m, p := Fill(t, to, name, payload), PayloadAt(t, to, name);
      m[p - |t.afterFilename|..] == t.afterFilename + (payload + t.tail)
  {
    var m := Fill(t, to, name, payload);
    var x := t.head + to + t.afterTo + name + t.afterName + name;
    var r6 := t.afterFilename + (payload + t.tail);
    calc {
      m;
      x + t.afterFilename + payload + t.tail;
      { Assoc(x + t.afterFilename, payload, t.tail); }
      x + t.afterFilename + (payload + t.tail);
      { Assoc(x, t.afterFilename, payload + t.tail); }
      x + r6;
    }
  }

  predicate StartsNonHex(s: string)
  {
    |s| > 0 && !IsHex(s[0])
  }

  predicate EndsNonHex(s: string)
  {
    |s| > 0 && !IsHex(s[|s| - 1])
  }

  /** Where the boundary occurs in each fixed text of a template, and that
      every junction with a substituted value touches a non-hex character. */
  ghost predicate BoundaryLayout(t: Template)
  {
    && (forall i :: !OccursAt(t.head, Boundary, i))
    && (forall i :: OccursAt(t.afterTo, Boundary, i) <==> i == ParamAt || i == DelimiterAt)
    && (forall i :: !OccursAt(t.afterName, Boundary, i))
    && (forall i :: !OccursAt(t.afterFilename, Boundary, i))
    && (forall i :: OccursAt(t.tail, Boundary, i) <==> i == 4)
    && EndsNonHex(t.head)
    && StartsNonHex(t.afterTo) && EndsNonHex(t.afterTo)
    && StartsNonHex(t.afterName) && EndsNonHex(t.afterName)
    && StartsNonHex(t.afterFilename) && EndsNonHex(t.afterFilename)
    && StartsNonHex(t.tail)
  }

  /** The characters around the boundary's occurrences that tell the two
      delimiter lines apart from the other occurrences. */
  ghost predicate DelimiterLayout(t: Template)
  {
    && BoundaryLayout(t)
    && |t.afterTo| > DelimiterAt + |Boundary|
    && t.afterTo[ParamAt - 1] == '"'
    && t.afterTo[DelimiterAt + |Boundary|] == '\r'
    && OccursAt(t.afterTo, OpenDelimiter, DelimiterAt - 2)
    && t.afterFilename[|t.afterFilename| - 1] == '\n'
    && |t.tail| == 2 + |CloseDelimiter|
    && OccursAt(t.tail, CloseDelimiter, 2)
    && t.tail[4 + |Boundary|] == '-'
  }

  /** The fixed text framing each substituted header value. */
  predicate FieldFrames(t: Template)
  {
    && |t.head| >= 4 && OccursAt(t.head, "To: ", |t.head| - 4)
    && OccursAt(t.afterTo, "\r\n", 0)
    && |t.afterTo| >= 7 && OccursAt(t.afterTo, "\tname=\"", |t.afterTo| - 7)
    && OccursAt(t.afterName, "\"\r\n", 0)
    && |t.afterName| >= 11 && OccursAt(t.afterName, "\tfilename=\"", |t.afterName| - 11)
    && OccursAt(t.afterFilename, "\"\r\n", 0)
  }

  lemma BoundaryNearPayload(t: Template, payload: string, j: int)
    requires BoundaryLayout(t)
    requires OccursAt(t.afterFilename + (payload + t.tail), Boundary, j)
    ensures || (|t.afterFilename| <= j && j + |Boundary| <= |t.afterFilename| + |payload|)
            || j == |t.afterFilename| + |payload| + 4
  {
    BoundaryIsHex();
    HexSplit(t.afterFilename, payload + t.tail, Boundary, j);
    var k := j - |t.afterFilename|;
    HexSplit(payload, t.tail, Boundary, k);
  }

  lemma BoundaryNearNames(t: Template, name: string, payload: string, j: int)
    requires BoundaryLayout(t) && !Contains(name, Boundary)
    requires OccursAt(name + (t.afterName + (name + (t.afterFilename + (payload + t.tail)))), Boundary, j)
    ensures var k := j - |name| - |t.afterName| - |name|;
      || (|t.afterFilename| <= k && k + |Boundary| <= |t.afterFilename| + |payload|)
      || k == |t.afterFilename| + |payload| + 4
  {
    BoundaryIsHex();
    var r6 := t.afterFilename + (payload + t.tail);
    var r5 := name + r6;
    var r4 := t.afterName + r5;
    assert r4[0] == t.afterName[0];
    var j4 := j - |name|;
    var j5 := j4 - |t.afterName|;
    var j6 := j5 - |name|;
    SkipValue(name, r4, j);
    SkipFixed(t.afterName, r5, j4);
    assert r6[0] == t.afterFilename[0];
    SkipValue(name, r6, j5);
    BoundaryNearPayload(t, payload, j6);
  }

  /** A boundary after a value that does not contain it, followed by a
      non-hex character, lies after the value. */
  lemma SkipValue(v: string, r: string, j: int)
    requires AllHex(Boundary) && !Contains(v, Boundary) && StartsNonHex(r)
    requires OccursAt(v + r, Boundary, j)
    ensures OccursAt(r, Boundary, j - |v|)
  {
    HexSplit(v, r, Boundary, j);
  }

  /** A boundary after a fixed text that does not hold one and ends in a
      non-hex character lies after that text. */
  lemma SkipFixed(x: string, r: string, j: int)
    requires AllHex(Boundary) && (forall i :: !OccursAt(x, Boundary, i)) && EndsNonHex(x)
    requires OccursAt(x + r, Boundary, j)
    ensures OccursAt(r, Boundary, j - |x|)
  {
    HexSplit(x, r, Boundary, j);
  }

  /** The only places the boundary can occur in a filled template whose
      recipient and name do not contain it: the `boundary=` parameter, the
      opening delimiter, inside the payload, and the closing delimiter. */
  lemma BoundaryInFill(t: Template, to: string, name: string, payload: string, j: int)
    requires BoundaryLayout(t)
    requires !Contains(to, Boundary) && !Contains(name, Boundary)
    requires OccursAt(Fill(t, to, name, payload), Boundary, j)
    ensures || j == |t.head| + |to| + ParamAt
            || j == |t.head| + |to| + DelimiterAt
            || (PayloadAt(t, to, name) <= j && j + |Boundary| <= PayloadAt(t, to, name) + |payload|)
            || j == PayloadAt(t, to, name) + |payload| + 4
  {
    FillShape(t, to, name, payload);
    BoundaryAfterHead(t, to, name, payload, j);
  }

  lemma BoundaryAfterHead(t: Template, to: string, name: string, payload: string, j: int)
    requires BoundaryLayout(t)
    requires !Contains(to, Boundary) && !Contains(name, Boundary)
    requires OccursAt(t.head + (to + AfterRecipient(t, name, payload)), Boundary, j)
    ensures || j == |t.head| + |to| + ParamAt
            || j == |t.head| + |to| + DelimiterAt
            || (PayloadAt(t, to, name) <= j && j + |Boundary| <= PayloadAt(t, to, name) + |payload|)
            || j == PayloadAt(t, to, name) + |payload| + 4
  {
    BoundaryIsHex();
    var r3 := name + (t.afterName + (name + (t.afterFilename + (payload + t.tail))));
    var r2 := AfterRecipient(t, name, payload);
    HexSplit(t.head, to + r2, Boundary, j);
    var j1 := j - |t.head|;
    assert r2[0] == t.afterTo[0];
    HexSplit(to, r2, Boundary, j1);
    var j2 := j1 - |to|;
    HexSplit(t.afterTo, r3, Boundary, j2);
    if !OccursAt(t.afterTo, Boundary, j2) {
      BoundaryNearNames(t, name, payload, j2 - |t.afterTo|);
    }
  }

  /** The characters around the payload of a filled template. */
  lemma PayloadChars(t: Template, to: string, name: string, payload: string)
    ensures var m, p := Fill(t, to, name, payload), PayloadAt(t, to, name);
      && |m| == p + |payload| + |t.tail|
      && m[p..p + |payload|] == payload
      && m[p + |payload|..] == t.tail
      && (|t.afterFilename| > 0 ==> m[p - 1] == t.afterFilename[|t.afterFilename| - 1])
  {
    var m, p := Fill(t, to, name, payload), PayloadAt(t, to, name);
    FillEnd(t, to, name, payload);
    var r6 := t.afterFilename + (payload + t.tail);
    var q := p - |t.afterFilename|;
    assert m[q..] == r6;
    assert m[p..p + |payload|] == r6[|t.afterFilename|..|t.afterFilename| + |payload|];
    assert m[p + |payload|..] == r6[|t.afterFilename| + |payload|..];
    if |t.afterFilename| > 0 {
      assert m[p - 1] == r6[|t.afterFilename| - 1];
    }
  }

  /** The characters of a filled template's fixed text after the recipient. */
  lemma AfterToChars(t: Template, to: string, name: string, payload: string, k: int)
    requires 0 <= k < |t.afterTo|
    ensures Fill(t, to, name, payload)[|t.head| + |to| + k] == t.afterTo[k]
  {
    FillShape(t, to, name, payload);
    var r2 := AfterRecipient(t, name, payload);
    assert Fill(t, to, name, payload)[|t.head| + |to| + k] == (to + r2)[|to| + k] == r2[k];
  }

  /** In a filled template whose recipient and name do not contain the
      boundary, the opening delimiter line occurs exactly once. */
  lemma OpenDelimiterInFill(t: Template, to: string, name: string, payload: string, i: int)
    requires DelimiterLayout(t) && NoDash(payload)
    requires !Contains(to, Boundary) && !Contains(name, Boundary)
    ensures OccursAt(Fill(t, to, name, payload), OpenDelimiter, i)
        <==> i == |t.head| + |to| + DelimiterAt - 2
  {
    var m := Fill(t, to, name, payload);
    var r3 := name + (t.afterName + (name + (t.afterFilename + (payload + t.tail))));
    if i == |t.head| + |to| + DelimiterAt - 2 {
      FillShape(t, to, name, payload);
      OccursLeft(t.afterTo, r3, OpenDelimiter, DelimiterAt - 2);
      OccursRight(to, t.afterTo + r3, OpenDelimiter, DelimiterAt - 2);
      OccursRight(t.head, to + (t.afterTo + r3), OpenDelimiter, |to| + DelimiterAt - 2);
    } else if OccursAt(m, OpenDelimiter, i) {
      OpenDelimiterOnly(t, to, name, payload, i);
    }
  }

  /** Every opening delimiter line of a filled template is the one that
      follows the headers: a '-' is never found where the other boundary
      occurrences are preceded or followed by the delimiter's characters. */
  lemma OpenDelimiterOnly(t: Template, to: string, name: string, payload: string, i: int)
    requires DelimiterLayout(t) && NoDash(payload)
    requires !Contains(to, Boundary) && !Contains(name, Boundary)
    requires OccursAt(Fill(t, to, name, payload), OpenDelimiter, i)
    ensures i == |t.head| + |to| + DelimiterAt - 2
  {
    var m := Fill(t, to, name, payload);
    OccursMiddle(m, "--", Boundary, "\r\n", i);
    OccursAtChars(m, OpenDelimiter, i, 1);
    OccursAtChars(m, OpenDelimiter, i, 30);
    BoundaryInFill(t, to, name, payload, i + 2);
    var p := PayloadAt(t, to, name);
    if i + 2 == |t.head| + |to| + ParamAt {
      AfterToChars(t, to, name, payload, ParamAt - 1);
      assert false;
    } else if p <= i + 2 && i + 2 + |Boundary| <= p + |payload| {
      NoDashAround(t, to, name, payload, i + 1);
      assert false;
    } else if i + 2 == p + |payload| + 4 {
      PayloadChars(t, to, name, payload);
      TailChars(t, to, name, payload, 2 + |Boundary| + 2);
      assert false;
    }
  }

  /** The payload of a filled template, and the character just before it,
      hold no '-'. */
  lemma NoDashAround(t: Template, to: string, name: string, payload: string, q: int)
    requires DelimiterLayout(t) && NoDash(payload)
    requires PayloadAt(t, to, name) - 1 <= q < PayloadAt(t, to, name) + |payload|
    ensures Fill(t, to, name, payload)[q] != '-'
  {
    var m, p := Fill(t, to, name, payload), PayloadAt(t, to, name);
    PayloadChars(t, to, name, payload);
    if q >= p {
      assert m[q] == m[p..p + |payload|][q - p];
    }
  }

  /** The characters of a filled template's tail. */
  lemma TailChars(t: Template, to: string, name: string, payload: string, k: int)
    requires 0 <= k < |t.tail|
    ensures |Fill(t, to, name, payload)| == PayloadAt(t, to, name) + |payload| + |t.tail|
    ensures Fill(t, to, name, payload)[PayloadAt(t, to, name) + |payload| + k] == t.tail[k]
  {
    var m, p := Fill(t, to, name, payload), PayloadAt(t, to, name);
    PayloadChars(t, to, name, payload);
    assert m[p + |payload| + k] == m[p + |payload|..][k];
  }

  /** In a filled template whose recipient and name do not contain the
      boundary, the closing delimiter line occurs exactly once: at the end. */
  lemma CloseDelimiterInFill(t: Template, to: string, name: string, payload: string, i: int)
    requires DelimiterLayout(t) && NoDash(payload)
    requires !Contains(to, Boundary) && !Contains(name, Boundary)
    ensures var m := Fill(t, to, name, payload);
      OccursAt(m, CloseDelimiter, i) <==> i == |m| - |CloseDelimiter|
  {
    var m := Fill(t, to, name, payload);
    if i == |m| - |CloseDelimiter| {
      PayloadChars(t, to, name, payload);
      OccursInSuffix(m, PayloadAt(t, to, name) + |payload|, CloseDelimiter, 2);
    } else if OccursAt(m, CloseDelimiter, i) {
      CloseDelimiterOnly(t, to, name, payload, i);
    }
  }

  /** Every closing delimiter line of a filled template is the one at the
      end: the other boundary occurrences lack its leading or trailing
      "--". */
  lemma CloseDelimiterOnly(t: Template, to: string, name: string, payload: string, i: int)
    requires DelimiterLayout(t) && NoDash(payload)
    requires !Contains(to, Boundary) && !Contains(name, Boundary)
    requires OccursAt(Fill(t, to, name, payload), CloseDelimiter, i)
    ensures i == |Fill(t, to, name, payload)| - |CloseDelimiter|
  {
    var m := Fill(t, to, name, payload);
    OccursMiddle(m, "--", Boundary, "--\r\n", i);
    OccursAtChars(m, CloseDelimiter, i, 1);
    OccursAtChars(m, CloseDelimiter, i, 30);
    BoundaryInFill(t, to, name, payload, i + 2);
    var p := PayloadAt(t, to, name);
    if i + 2 == |t.head| + |to| + ParamAt {
      AfterToChars(t, to, name, payload, ParamAt - 1);
      assert false;
    } else if i + 2 == |t.head| + |to| + DelimiterAt {
      AfterToChars(t, to, name, payload, DelimiterAt + 28);
      assert false;
    } else if p <= i + 2 && i + 2 + |Boundary| <= p + |payload| {
      NoDashAround(t, to, name, payload, i + 1);
      assert false;
    } else {
      assert i + 2 == p + |payload| + 4;
      assert |m| == p + |payload| + |t.tail|;
    }
  }

  /** The recipient's header in a filled template. */
  lemma RecipientInFill(t: Template, to: string, name: string, payload: string)
    requires FieldFrames(t)
    ensures OccursAt(Fill(t, to, name, payload), "To: " + to + "\r\n", |t.head| - 4)
  {
    Framed(t.head, to, AfterRecipient(t, name, payload), "To: ", "\r\n");
    FillShape(t, to, name, payload);
  }

  /** The `name` parameter in a filled template. */
  lemma NameInFill(t: Template, to: string, name: string, payload: string)
    requires FieldFrames(t)
    ensures OccursAt(Fill(t, to, name, payload), "\tname=\"" + name + "\"\r\n",
                     |t.head| + |to| + |t.afterTo| - 7)
  {
    NameAfterRecipient(t, name, payload);
    AfterHead(t.head, to, AfterRecipient(t, name, payload), "\tname=\"" + name + "\"\r\n", |t.afterTo| - 7);
    FillShape(t, to, name, payload);
  }

  /** The `name` parameter in the text after the recipient. */
  lemma NameAfterRecipient(t: Template, name: string, payload: string)
    requires FieldFrames(t)
    ensures OccursAt(AfterRecipient(t, name, payload), "\tname=\"" + name + "\"\r\n", |t.afterTo| - 7)
  {
    var r5 := name + (t.afterFilename + (payload + t.tail));
    var r4 := t.afterName + r5;
    OccursLeft(t.afterName, r5, "\"\r\n", 0);
    Framed(t.afterTo, name, r4, "\tname=\"", "\"\r\n");
  }

  /** An occurrence after the recipient is one in the filled template. */
  lemma AfterHead(head: string, to: string, r: string, f: string, j: int)
    requires OccursAt(r, f, j)
    ensures OccursAt(head + (to + r), f, |head| + |to| + j)
  {
    OccursRight(to, r, f, j);
    OccursRight(head, to + r, f, |to| + j);
  }

  /** The `filename` parameter in a filled template. */
  lemma FilenameInFill(t: Template, to: string, name: string, payload: string)
    requires FieldFrames(t)
    ensures OccursAt(Fill(t, to, name, payload), "\tfilename=\"" + name + "\"\r\n",
                     |t.head| + |to| + |t.afterTo| + |name| + |t.afterName| - 11)
  {
    var f := "\tfilename=\"" + name + "\"\r\n";
    FilenameAfterRecipient(t, name, payload);
    AfterHead(t.head, to, AfterRecipient(t, name, payload), f, |t.afterTo| + |name| + |t.afterName| - 11);
    FillShape(t, to, name, payload);
  }

  /** The `filename` parameter in the text after the recipient. */
  lemma FilenameAfterRecipient(t: Template, name: string, payload: string)
    requires FieldFrames(t)
    ensures OccursAt(AfterRecipient(t, name, payload), "\tfilename=\"" + name + "\"\r\n",
                     |t.afterTo| + |name| + |t.afterName| - 11)
  {
    var r3 := name + (t.afterName + (name + (t.afterFilename + (payload + t.tail))));
    FilenameAfterName(t, name, payload);
    OccursRight(t.afterTo, r3, "\tfilename=\"" + name + "\"\r\n", |name| + |t.afterName| - 11);
  }

  /** The `filename` parameter in the text from the first name on. */
  lemma FilenameAfterName(t: Template, name: string, payload: string)
    requires FieldFrames(t)
    ensures OccursAt(name + (t.afterName + (name + (t.afterFilename + (payload + t.tail)))),
                     "\tfilename=\"" + name + "\"\r\n", |name| + |t.afterName| - 11)
  {
    var r6 := t.afterFilename + (payload + t.tail);
    var r4 := t.afterName + (name + r6);
    OccursLeft(t.afterFilename, payload + t.tail, "\"\r\n", 0);
    Framed(t.afterName, name, r6, "\tfilename=\"", "\"\r\n");
    OccursRight(name, r4, "\tfilename=\"" + name + "\"\r\n", |t.afterName| - 11);
  }

  predicate NoDash(s: string)
  {
    forall k | 0 <= k < |s| :: s[k] != '-'
  }

  lemma MsgFmtBoundaryLayout()
    ensures BoundaryLayout(MsgFmt)
  {
    BoundaryIsHex();
    forall i ensures !OccursAt(Head, Boundary, i) {
      NoBoundaryInHead(i);
    }
    forall i ensures OccursAt(AfterTo, Boundary, i) <==> i == ParamAt || i == DelimiterAt {
      BoundaryInAfterTo(i);
    }
    forall i ensures !OccursAt(AfterName, Boundary, i) {
      NoBoundaryInAfterName(i);
    }
    forall i ensures !OccursAt(AfterFilename, Boundary, i) {
      NoBoundaryInAfterFilename(i);
    }
    forall i ensures OccursAt(Tail, Boundary, i) <==> i == 4 {
      BoundaryInTail(i);
    }
    assert Head[|Head| - 1] == ' ';
    assert AfterTo[0] == BeforeOpen[0] == '\r';
    assert AfterTo[|AfterTo| - 1] == PartHead[|PartHead| - 1] == '"';
    assert AfterName[0] == '"' && AfterName[|AfterName| - 1] == '"';
    assert AfterFilename[0] == '"';
    assert AfterFilename[|AfterFilename| - 1] == PartTrailer[|PartTrailer| - 1] == '\n';
    assert Tail[0] == '\r';
  }

  lemma MsgFmtDelimiterLayout()
    ensures DelimiterLayout(MsgFmt)
  {
    MsgFmtBoundaryLayout();
    assert |BeforeOpen| == DelimiterAt - 2;
    assert AfterTo[ParamAt - 1] == BeforeOpen[ParamAt - 1] == '"';
    assert AfterTo[DelimiterAt + |Boundary|] == OpenDelimiter[30] == '\r';
    OccursSuffix(BeforeOpen, OpenDelimiter);
    OccursLeft(BeforeOpen + OpenDelimiter, PartHead, OpenDelimiter, |BeforeOpen|);
    assert AfterFilename[|AfterFilename| - 1] == PartTrailer[|PartTrailer| - 1] == '\n';
    OccursSuffix("\r\n", CloseDelimiter);
    assert Tail[4 + |Boundary|] == CloseDelimiter[30] == '-';
  }

  lemma MsgFmtFieldFrames()
    ensures FieldFrames(MsgFmt)
  {
    OccursSuffix(Headers, "To: ");
    assert AfterTo[0] == BeforeOpen[0] == '\r';
    assert AfterTo[1] == BeforeOpen[1] == '\n';
    OccursByChars(AfterTo, "\r\n", 0);
    OccursSuffix(PartType, "\tname=\"");
    OccursRight(BeforeOpen + OpenDelimiter, PartHead, "\tname=\"", |PartType|);
    OccursPrefix("\"\r\n", Disposition);
    OccursLeft("\"\r\n" + Disposition, "\tfilename=\"", "\"\r\n", 0);
    OccursSuffix("\"\r\n" + Disposition, "\tfilename=\"");
    OccursPrefix("\"\r\n", PartTrailer);
  }

  /** `fmt.Sprintf(msgFmt, to, name, name, payload)`. */
  function Message(to: string, name: string, payload: string): string
  {
    Fill(MsgFmt, to, name, payload)
  }

  /** The message for a recipient, a file path and the file's bytes: the
      file name is the path's last element and the payload is the standard
      base64 text of the bytes. Besides those, the message holds the
      template's 566 characters of fixed text. */
  function Build(to: string, path: string, content: seq<Base64.byte>): (r: string)
    ensures |r| == 566 + |to| + 2 * |PathBase.Base(path)| + 4 * ((|content| + 2) / 3)
  {
    Message(to, PathBase.Base(path), Base64.Encode(content))
  }

  /** Base64 text never contains '-', the character delimiter lines start with. */
  lemma EncodingHasNoDash(content: seq<Base64.byte>)
    ensures NoDash(Base64.Encode(content))
  {
    var s := Base64.Encode(content);
    Base64.EncodedChars(content);
    forall k | 0 <= k < |s|
      ensures s[k] != '-'
    {
      if k < |s| - Base64.PadCount(|content|) {
        assert Base64.IsAlphabetChar(s[k]);
      }
    }
  }

  /** The message names the recipient in its `To:` header. */
  lemma RecipientHeader(to: string, path: string, content: seq<Base64.byte>)
    ensures OccursAt(Build(to, path, content), "To: " + to + "\r\n", |MsgFmt.head| - 4)
  {
    MsgFmtFieldFrames();
    RecipientInFill(MsgFmt, to, PathBase.Base(path), Base64.Encode(content));
  }

  /** The attachment's `name` parameter is the file's base name. */
  lemma NameParameter(to: string, path: string, content: seq<Base64.byte>)
    ensures var name := PathBase.Base(path);
      OccursAt(Build(to, path, content), "\tname=\"" + name + "\"\r\n",
               |MsgFmt.head| + |to| + |MsgFmt.afterTo| - 7)
  {
    MsgFmtFieldFrames();
    NameInFill(MsgFmt, to, PathBase.Base(path), Base64.Encode(content));
  }

  /** The attachment's `filename` parameter is the file's base name too. */
  lemma FilenameParameter(to: string, path: string, content: seq<Base64.byte>)
    ensures var name := PathBase.Base(path);
      OccursAt(Build(to, path, content), "\tfilename=\"" + name + "\"\r\n",
               |MsgFmt.head| + |to| + |MsgFmt.afterTo| + |name| + |MsgFmt.afterName| - 11)
  {
    MsgFmtFieldFrames();
    FilenameInFill(MsgFmt, to, PathBase.Base(path), Base64.Encode(content));
  }

  /** The payload between the part headers and the closing text is the
      base64 text of the file, and it decodes back to the file's bytes. */
  lemma PayloadDecodes(to: string, path: string, content: seq<Base64.byte>)
    ensures var m, p := Build(to, path, content), PayloadAt(MsgFmt, to, PathBase.Base(path));
      && p + |Tail| <= |m|
      && m[p..|m| - |Tail|] == Base64.Encode(content)
      && Base64.Decode(m[p..|m| - |Tail|]) == Results.Some(content)
      && m[|m| - |Tail|..] == Tail
  {
    var name, payload := PathBase.Base(path), Base64.Encode(content);
    assert Build(to, path, content) == Fill(MsgFmt, to, name, payload);
    PayloadChars(MsgFmt, to, name, payload);
    Base64.DecodeEncode(content);
  }

  /** When neither the recipient nor the file's base name contains the
      boundary, the opening delimiter line occurs exactly once, after the
      message headers, and the closing delimiter line exactly once, at the
      end of the message. */
  lemma DelimitersOnce(to: string, path: string, content: seq<Base64.byte>, i: int)
    requires !Contains(to, Boundary) && !Contains(PathBase.Base(path), Boundary)
    ensures var m := Build(to, path, content);
      && (OccursAt(m, OpenDelimiter, i) <==> i == |Head| + |to| + DelimiterAt - 2)
      && (OccursAt(m, CloseDelimiter, i) <==> i == |m| - |CloseDelimiter|)
  {
    var name, payload := PathBase.Base(path), Base64.Encode(content);
    MsgFmtDelimiterLayout();
    EncodingHasNoDash(content);
    OpenDelimiterInFill(MsgFmt, to, name, payload, i);
    CloseDelimiterInFill(MsgFmt, to, name, payload, i);
  }
}
